/** Conversion of world textures into OpenGL textures: the pixel-format table. Format codes are
    the OpenGL enumerant values of the Khronos `gl.h` header. */
module Textures {
  import opened Wrappers
  import opened Scene

  const GL_R8: nat := 0x8229
  const GL_RG: nat := 0x8227
  const GL_RGB: nat := 0x1907
  const GL_RGBA: nat := 0x1908
  const GL_BGR: nat := 0x80E0
  const GL_BGRA: nat := 0x80E1
  const GL_R16: nat := 0x822A
  const GL_RG16: nat := 0x822C
  const GL_RGB16: nat := 0x8054
  const GL_RGBA16: nat := 0x805B
  const GL_R16F: nat := 0x822D
  const GL_RG16F: nat := 0x822F
  const GL_RGB16F: nat := 0x881B
  const GL_RGBA16F: nat := 0x881A
  const GL_R32UI: nat := 0x8236
  const GL_RG32UI: nat := 0x823C
  const GL_RGB32UI: nat := 0x8D71
  const GL_RGBA32UI: nat := 0x8D70
  const GL_R32F: nat := 0x822E
  const GL_RG32F: nat := 0x8230
  const GL_RGB32F: nat := 0x8815
  const GL_RGBA32F: nat := 0x8814

  /** The pixel format handed to OpenGL for each world format. */
  function GlPixelFormat(f: TextureFormat): nat {
    match f
    case R8 => GL_R8
    case R8G8 => GL_RG
    case R8G8B8 => GL_RGB
    case R8G8B8A8 => GL_RGBA
    case B8G8R8 => GL_BGR
    case B8G8R8A8 => GL_BGRA
    case R16 => GL_R16
    case R16G16 => GL_RG16
    case R16G16B16 => GL_RGB16
    case R16G16B16A16 => GL_RGBA16
    case R16F => GL_R16F
    case R16G16F => GL_RG16F
    case R16G16B16F => GL_RGB16F
    case R16G16B16A16F => GL_RGBA16F
    case R32 => GL_R32UI
    case R32G32 => GL_RG32UI
    case R32G32B32 => GL_RGB32UI
    case R32G32B32A32 => GL_RGBA32UI
    case R32F => GL_R32F
    case R32G32F => GL_RG32F
    case R32G32B32F => GL_RGB32F
    case R32G32B32A32F => GL_RGBA32F
  }

  /** The inverse table: which world format, if any, a GL pixel format code comes from. */
  function WorldFormatOf(code: nat): Option<TextureFormat> {
    if code == GL_R8 then Some(R8)
    else if code == GL_RG then Some(R8G8)
    else if code == GL_RGB then Some(R8G8B8)
    else if code == GL_RGBA then Some(R8G8B8A8)
    else if code == GL_BGR then Some(B8G8R8)
    else if code == GL_BGRA then Some(B8G8R8A8)
    else if code == GL_R16 then Some(R16)
    else if code == GL_RG16 then Some(R16G16)
    else if code == GL_RGB16 then Some(R16G16B16)
    else if code == GL_RGBA16 then Some(R16G16B16A16)
    else if code == GL_R16F then Some(R16F)
    else if code == GL_RG16F then Some(R16G16F)
    else if code == GL_RGB16F then Some(R16G16B16F)
    else if code == GL_RGBA16F then Some(R16G16B16A16F)
    else if code == GL_R32UI then Some(R32)
    else if code == GL_RG32UI then Some(R32G32)
    else if code == GL_RGB32UI then Some(R32G32B32)
    else if code == GL_RGBA32UI then Some(R32G32B32A32)
    else if code == GL_R32F then Some(R32F)
    else if code == GL_RG32F then Some(R32G32F)
    else if code == GL_RGB32F then Some(R32G32B32F)
    else if code == GL_RGBA32F then Some(R32G32B32A32F)
    else None
  }

  /** Every format is mapped, and the format can be read back from its code. */
  lemma PixelFormatRoundTrip(f: TextureFormat)
    ensures WorldFormatOf(GlPixelFormat(f)) == Some(f)
  {
  }

  /** Every code the inverse table accepts is the image of the format it names. */
  lemma WorldFormatOfSound(code: nat)
    ensures WorldFormatOf(code).Some? ==> GlPixelFormat(WorldFormatOf(code).value) == code
  {
  }

  /** Distinct world formats get distinct GL formats. */
  lemma PixelFormatInjective(f: TextureFormat, g: TextureFormat)
    ensures GlPixelFormat(f) == GlPixelFormat(g) ==> f == g
  {
    PixelFormatRoundTrip(f);
    PixelFormatRoundTrip(g);
  }

  /** An uploaded OpenGL texture: the arguments of its data upload. */
  datatype GlTexture = GlTexture(width: nat, height: nat, pixels: seq<bv8>, pixelFormat: nat)

  /** The world texture an uploaded texture was made from, read back through the format table. */
  function WorldTextureOf(g: GlTexture): Option<Texture> {
    match WorldFormatOf(g.pixelFormat)
    case None => None
    case Some(f) => Some(Texture(g.pixels, f, g.width, g.height))
  }

  function MapWorldTexture(t: Texture): (r: GlTexture)
    ensures r.width == t.width && r.height == t.height && r.pixels == t.pixels
    ensures WorldFormatOf(r.pixelFormat) == Some(t.format)
    ensures WorldTextureOf(r) == Some(t)
  {
    PixelFormatRoundTrip(t.format);
    GlTexture(t.width, t.height, t.pixels, GlPixelFormat(t.format))
  }

  /** The renderer's texture table: one GL texture per world texture, at the same index, so a
      material's texture index addresses both. */
  function MapWorldTextures(ts: seq<Texture>): (r: seq<GlTexture>)
    ensures |r| == |ts|
    ensures forall i :: 0 <= i < |ts| ==> r[i] == MapWorldTexture(ts[i])
    ensures forall i :: 0 <= i < |ts| ==> WorldTextureOf(r[i]) == Some(ts[i])
  {
    seq(|ts|, i requires 0 <= i < |ts| => MapWorldTexture(ts[i]))
  }
}
