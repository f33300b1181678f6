/**
 * The host-side arithmetic of `readTextureData`: the padded row stride the
 * backend requires for a texture-to-buffer copy, the staging buffer size,
 * and the removal of that padding from the mapped buffer.
 */
module ReadTexture {
  import opened Wrappers
  import MathUtils
  import TextureMetadata
  import opened SliceMatrix

  /** Buffer rows of a texture-to-buffer copy must start at multiples of 256 bytes. */
  const RowAlignment: int := 256

  /**
   * `bytesPerRow = pad(bytesPerTexel * width, 256)`: the smallest multiple of
   * 256 that holds one unpadded row.
   */
  function BytesPerRow(bytesPerTexel: nat, width: nat): (bpr: nat)
    ensures bpr % RowAlignment == 0
    ensures bytesPerTexel * width <= bpr < bytesPerTexel * width + RowAlignment
    ensures forall k: int :: k * RowAlignment >= bytesPerTexel * width ==> bpr <= k * RowAlignment
  {
    var bpr := MathUtils.Pad(bytesPerTexel * width, RowAlignment);
    forall k: int | k * RowAlignment >= bytesPerTexel * width
      ensures bpr <= k * RowAlignment
    {
      MathUtils.PadIsLeastMultiple(bytesPerTexel * width, RowAlignment, k);
    }
    bpr
  }

  /** The staging buffer holds `height` padded rows. */
  function StagingSize(bytesPerTexel: nat, width: nat, height: nat): nat {
    BytesPerRow(bytesPerTexel, width) * height
  }

  /** Padding is stripped exactly when an unpadded row is not already a multiple of 256 bytes. */
  lemma PaddedIff(bytesPerTexel: nat, width: nat)
    ensures BytesPerRow(bytesPerTexel, width) != bytesPerTexel * width
        <==> (bytesPerTexel * width) % RowAlignment != 0
  {
    MathUtils.PadFixedIff(bytesPerTexel * width, RowAlignment);
  }

  /** The `sliceMatrix` call of `readTextureData` passes all four of its checks. */
  lemma SliceCallAccepted(bytesPerTexel: nat, width: nat, height: nat)
    requires bytesPerTexel >= 1 && width >= 1 && height >= 1
    ensures var bpr := BytesPerRow(bytesPerTexel, width);
      && SliceAccepts(bpr * height, bpr, bytesPerTexel * width)
      && (bpr * height) / bpr == height
  {
    var bpr := BytesPerRow(bytesPerTexel, width);
    MathUtils.MulMonotone(1, bytesPerTexel, width);
    MathUtils.MulMonotone(1, height, bpr);
    MathUtils.MultipleHasNoRemainder(height, bpr);
    DivOfMultiple(height, bpr);
  }

  /** A buffer of `height` rows at stride `w` read at that same stride gives back each row unchanged. */
  lemma WholeRowsCopied(m: seq<byte>, w: nat, height: nat)
    requires |m| == w * height
    ensures forall row: nat :: row < height ==> RowCopied(m, m, w, w, row)
  {
    forall row: nat | row < height
      ensures RowCopied(m, m, w, w, row)
    {
      MathUtils.MulMonotone(row + 1, height, w);
      MulSucc(row, w);
    }
  }

  /**
   * `readTextureData` after the mapped staging buffer is available: the
   * texel bytes of the texture, densely packed row by row. Row `r` of the
   * result is the first `bytesPerTexel * width` bytes of padded row `r`; when
   * no padding was added the mapped buffer is copied unchanged. A texture of
   * height 0 whose rows would need padding reaches `sliceMatrix` with an
   * empty buffer, which throws.
   */
  function ReadTextureData(format: string, width: nat, height: nat, mapped: seq<byte>): (r: Result<seq<byte>, SliceError>)
    requires TextureMetadata.Lookup(format).Some?
    requires |mapped| == StagingSize(TextureMetadata.Lookup(format).value.bytesPerTexel, width, height)
    ensures var bpt := TextureMetadata.Lookup(format).value.bytesPerTexel;
      var bpr := BytesPerRow(bpt, width);
      && (r.Failure? <==> height == 0 && bpr != bpt * width)
      && (r.Failure? ==> r.error == EmptyMatrix)
      && (r.Success? ==>
          && |r.value| == bpt * width * height
          && (forall row: nat :: row < height ==> RowCopied(r.value, mapped, bpr, bpt * width, row))
          && (bpr == bpt * width ==> r.value == mapped))
  {
    var bpt := TextureMetadata.Lookup(format).value.bytesPerTexel;
    var bpr := BytesPerRow(bpt, width);
    if bpr != bpt * width then
      if height == 0 then
        SliceMatrix.SliceMatrix(mapped, bpr, bpt * width)
      else
        SliceCallAccepted(bpt, width, height);
        SliceMatrix.SliceMatrix(mapped, bpr, bpt * width)
    else
      WholeRowsCopied(mapped, bpr, height);
      Success(mapped)
  }

  /** The bytes of texel `(r, c)` come from staging offset `r * bytesPerRow + c * bytesPerTexel`. */
  lemma TexelBytes(format: string, width: nat, height: nat, mapped: seq<byte>, r: nat, c: nat, b: nat)
    requires TextureMetadata.Lookup(format).Some?
    requires |mapped| == StagingSize(TextureMetadata.Lookup(format).value.bytesPerTexel, width, height)
    requires r < height && c < width && b < TextureMetadata.Lookup(format).value.bytesPerTexel
    ensures var bpt := TextureMetadata.Lookup(format).value.bytesPerTexel;
      var bpr := BytesPerRow(bpt, width);
      var read := ReadTextureData(format, width, height, mapped);
      && read.Success?
      && r * (bpt * width) + c * bpt + b < |read.value|
      && r * bpr + c * bpt + b < |mapped|
      && read.value[r * (bpt * width) + c * bpt + b] == mapped[r * bpr + c * bpt + b]
  {
    var bpt := TextureMetadata.Lookup(format).value.bytesPerTexel;
    var bpr := BytesPerRow(bpt, width);
    var data := ReadTextureData(format, width, height, mapped).value;
    var rowBytes := bpt * width;
    var k := c * bpt + b;
    MathUtils.MulMonotone(c + 1, width, bpt);
    MulSucc(c, bpt);
    assert k < rowBytes;
    RowCopiedByte(data, mapped, bpr, rowBytes, r, k);
  }

  /**
   * Round trip with the texture-to-buffer copy: if the staging buffer holds
   * the texture's rows at the padded stride (whatever the padding bytes are),
   * the readback returns exactly the texture's bytes; only an empty texture
   * with padded rows fails.
   */
  lemma ReadTextureRoundTrip(format: string, width: nat, height: nat, mapped: seq<byte>, texels: seq<byte>)
    requires TextureMetadata.Lookup(format).Some?
    requires |mapped| == StagingSize(TextureMetadata.Lookup(format).value.bytesPerTexel, width, height)
    requires |texels| == TextureMetadata.Lookup(format).value.bytesPerTexel * width * height
    requires forall row: nat :: row < height ==>
      RowCopied(texels, mapped, BytesPerRow(TextureMetadata.Lookup(format).value.bytesPerTexel, width),
                TextureMetadata.Lookup(format).value.bytesPerTexel * width, row)
    ensures ReadTextureData(format, width, height, mapped).Success? ==>
      ReadTextureData(format, width, height, mapped).value == texels
  {
    var bpt := TextureMetadata.Lookup(format).value.bytesPerTexel;
    var bpr := BytesPerRow(bpt, width);
    var rowBytes := bpt * width;
    if ReadTextureData(format, width, height, mapped).Failure? {
      return;
    }
    var data := ReadTextureData(format, width, height, mapped).value;
    forall row: nat | row < height
      ensures SameRow(data, texels, rowBytes, row)
    {
      assert RowCopied(data, mapped, bpr, rowBytes, row);
      assert RowCopied(texels, mapped, bpr, rowBytes, row);
    }
    assert |data| == height * rowBytes;
    RowsDetermine(data, texels, rowBytes, height);
  }
}
