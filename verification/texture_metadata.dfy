/**
 * The registry of supported texture formats (`TEXTURE_FORMAT_INFO`) and the
 * two helpers the shader templates use to name types: `castToFloat` and
 * `channelMask`.
 */
module TextureMetadata {
  import opened Wrappers

  /** A count from one to four: channels of a texel, components of a WGSL vector. */
  type Count4 = n: int | 1 <= n <= 4 witness 1

  /** The WGSL scalar sample types `f32`, `u32`, `i32`. */
  datatype SampleType = F32 | U32 | I32

  /**
   * A WGSL texel type: `width` 1 is the scalar itself (`f32`), 2 to 4 the
   * vectors `vec2f` ... `vec4i`.
   */
  datatype TexelType = TexelType(width: Count4, component: SampleType)

  /** The WebGPU `GPUTextureSampleType` values. */
  datatype TextureSamplerType = Float | UnfilterableFloat | Depth | Sint | Uint

  /** The JavaScript typed array a readback is wrapped in. */
  datatype TypedArrayKind =
    | Float32Array | Float64Array
    | Int8Array | Uint8Array | Uint8ClampedArray
    | Int16Array | Uint16Array
    | Int32Array | Uint32Array

  /** Bytes per element of a typed array: the per-channel width of a format stored in it. */
  function BytesPerElement(k: TypedArrayKind): nat {
    match k
    case Int8Array | Uint8Array | Uint8ClampedArray => 1
    case Int16Array | Uint16Array => 2
    case Float32Array | Int32Array | Uint32Array => 4
    case Float64Array => 8
  }

  datatype FormatInfo = FormatInfo(
    bytesPerTexel: nat,
    channelsCount: Count4,
    sampleType: SampleType,
    texelType: TexelType,
    textureSamplerType: TextureSamplerType,
    typedArray: TypedArrayKind)

  /** The six entries of `TEXTURE_FORMAT_INFO`, keyed by WebGPU format name. */
  const TextureFormatInfo: map<string, FormatInfo> := map[
    "r32float" := FormatInfo(4, 1, F32, TexelType(1, F32), Float, Float32Array),
    "rgba32float" := FormatInfo(16, 4, F32, TexelType(4, F32), Float, Float32Array),
    "rgba8uint" := FormatInfo(4, 4, U32, TexelType(4, U32), Uint, Uint8ClampedArray),
    "r8uint" := FormatInfo(1, 1, U32, TexelType(1, U32), Uint, Uint8Array),
    "rgba8unorm" := FormatInfo(4, 4, F32, TexelType(4, F32), Float, Uint8ClampedArray),
    "bgra8unorm" := FormatInfo(4, 4, F32, TexelType(4, F32), Float, Uint8ClampedArray)
  ]

  const SupportedFormats: set<string> :=
    {"r32float", "rgba32float", "rgba8uint", "r8uint", "rgba8unorm", "bgra8unorm"}

  /**
   * The internal consistency every entry keeps: the texel size is the channel
   * count times the per-channel width, the texel type has one component per
   * channel and the entry's sample type as component, and the sampler type is
   * `float` exactly for `f32` samples and `uint` exactly for `u32` samples.
   */
  predicate WellFormed(info: FormatInfo) {
    && info.bytesPerTexel == info.channelsCount * BytesPerElement(info.typedArray)
    && info.texelType.width == info.channelsCount
    && info.texelType.component == info.sampleType
    && (info.textureSamplerType == Float <==> info.sampleType == F32)
    && (info.textureSamplerType == Uint <==> info.sampleType == U32)
  }

  /**
   * `TEXTURE_FORMAT_INFO[format]`: `None` where the source yields
   * `undefined`. Exactly the six supported formats are found, and every entry
   * found is well formed.
   */
  function Lookup(format: string): (r: Option<FormatInfo>)
    ensures r.Some? <==> format in SupportedFormats
    ensures r.Some? ==> WellFormed(r.value) && r.value.bytesPerTexel >= 1
  {
    if format in TextureFormatInfo then Some(TextureFormatInfo[format]) else None
  }

  lemma ExactlySixFormats()
    ensures TextureFormatInfo.Keys == SupportedFormats
    ensures |SupportedFormats| == 6
  {
  }

  /** The two channel widths in use: one byte for the `8` formats, four for the `32` formats. */
  lemma ChannelWidths()
    ensures forall f :: f in {"rgba8uint", "r8uint", "rgba8unorm", "bgra8unorm"} ==>
      BytesPerElement(TextureFormatInfo[f].typedArray) == 1
    ensures forall f :: f in {"r32float", "rgba32float"} ==>
      BytesPerElement(TextureFormatInfo[f].typedArray) == 4
  {
  }

  /**
   * `castToFloat`: the floating-point type with the same shape, used to
   * accumulate integer samples without truncation.
   */
  function CastToFloat(t: TexelType): (r: TexelType)
    ensures r.width == t.width
    ensures r.component == F32
    ensures t.component == F32 ==> r == t
  {
    match t.component
    case F32 => t
    case U32 | I32 => TexelType(t.width, F32)
  }

  lemma CastToFloatIdempotent(t: TexelType)
    ensures CastToFloat(CastToFloat(t)) == CastToFloat(t)
  {
  }

  /** `channelMask(n)`: the swizzle naming the first `n` channels. */
  function ChannelMask(n: Count4): (mask: string)
    ensures |mask| == n
    ensures mask == "rgba"[..n]
  {
    match n
    case 1 => "r"
    case 2 => "rg"
    case 3 => "rgb"
    case 4 => "rgba"
  }
}
