/**
 * The texture-bank converter: a `.header` file is a table of 16-byte
 * texture records, and each record locates `width * height` pixels in the
 * matching `.raw` file, two bytes per pixel in 4-bit-per-channel form,
 * which are expanded to 8-bit RGBA.
 *
 * The nibble-to-byte scaling is `f32` arithmetic; it is a parameter
 * here: a table giving the byte for each of the 16 nibble values.
 */
module PixelConv {
  import opened Bytes
  import opened Stream

  /** `scale_4bit_to_8bit` as its table of values: entry v is the byte nibble v becomes. */
  type Scale = t: seq<Byte> | |t| == 16 witness Zeros(16)

  /** One record of a bank header, field for field. */
  datatype TextureInfo = TextureInfo(
    width: U16,
    height: U16,
    pixelFormat: Byte,
    unk0: Byte,
    unk1: U16,
    offset: U32,
    textureId: U16,
    unk4: U16)

  /** The image handed to the PNG writer: dimensions and RGBA bytes, row by row. */
  datatype RgbaImage = RgbaImage(width: U16, height: U16, pixels: seq<Byte>)

  // ---------------------------------------------------------------------------
  // Header records
  // ---------------------------------------------------------------------------

  /** The record `TextureInfo::from_reader` decodes from 16 bytes. */
  function DecodeInfo(rec: seq<Byte>): TextureInfo
    requires |rec| == 16
  {
    TextureInfo(LeU16(rec[0..2]), LeU16(rec[2..4]), rec[4], rec[5], LeU16(rec[6..8]),
                LeU32(rec[8..12]), LeU16(rec[12..14]), LeU16(rec[14..16]))
  }

  /** The 16 bytes of a record: width@0, height@2, format@4, unk0@5, unk1@6, offset@8, id@12, unk4@14. */
  function EncodeInfo(t: TextureInfo): (rec: seq<Byte>)
    ensures |rec| == 16
  {
    LeBytes16(t.width) + LeBytes16(t.height) + [t.pixelFormat, t.unk0] + LeBytes16(t.unk1)
      + LeBytes32(t.offset) + LeBytes16(t.textureId) + LeBytes16(t.unk4)
  }

  /** Decoding an encoded record recovers every field. */
  lemma DecodeEncodeInfo(t: TextureInfo)
    ensures DecodeInfo(EncodeInfo(t)) == t
  {
    var rec := EncodeInfo(t);
    assert rec[0..2] == LeBytes16(t.width);
    assert rec[2..4] == LeBytes16(t.height);
    assert rec[6..8] == LeBytes16(t.unk1);
    assert rec[8..12] == LeBytes32(t.offset);
    assert rec[12..14] == LeBytes16(t.textureId);
    assert rec[14..16] == LeBytes16(t.unk4);
    LeU16RoundTrip(t.width);
    LeU16RoundTrip(t.height);
    LeU16RoundTrip(t.unk1);
    LeU32RoundTrip(t.offset);
    LeU16RoundTrip(t.textureId);
    LeU16RoundTrip(t.unk4);
  }

  /** Every one of the 16 bytes is a field: re-encoding a decoded record gives it back. */
  lemma EncodeDecodeInfo(rec: seq<Byte>)
    requires |rec| == 16
    ensures EncodeInfo(DecodeInfo(rec)) == rec
  {
    LeBytes16RoundTrip(rec[0..2]);
    LeBytes16RoundTrip(rec[2..4]);
    LeBytes16RoundTrip(rec[6..8]);
    LeBytes32RoundTrip(rec[8..12]);
    LeBytes16RoundTrip(rec[12..14]);
    LeBytes16RoundTrip(rec[14..16]);
    assert EncodeInfo(DecodeInfo(rec)) == rec[0..2] + rec[2..4] + [rec[4], rec[5]] + rec[6..8]
      + rec[8..12] + rec[12..14] + rec[14..16];
  }

  /** Record k of a header file lies within it whenever k is below the record count. */
  lemma RecordInFile(size: nat, k: nat)
    requires k < size / 16
    ensures 16 * k + 16 <= size
  {
  }

  /** The records `all_from_reader` returns: `size / 16` of them, read from offset 0. */
  function HeaderTable(data: seq<Byte>): (infos: seq<TextureInfo>)
    ensures |infos| == |data| / 16
  {
    seq(|data| / 16, k requires 0 <= k < |data| / 16 =>
      RecordInFile(|data|, k); DecodeInfo(data[16 * k..16 * k + 16]))
  }

  /** The trailing `size % 16` bytes of a header file do not affect the table. */
  lemma HeaderTableIgnoresTail(data: seq<Byte>)
    ensures HeaderTable(data) == HeaderTable(data[..16 * (|data| / 16)])
  {
    var whole := data[..16 * (|data| / 16)];
    assert |whole| / 16 == |data| / 16;
    forall k | 0 <= k < |data| / 16
      ensures HeaderTable(data)[k] == HeaderTable(whole)[k]
    {
      RecordInFile(|data|, k);
      assert whole[16 * k..16 * k + 16] == data[16 * k..16 * k + 16];
    }
  }

  /** The header file a writer emits for `infos`: each record in order. */
  function EncodeTable(infos: seq<TextureInfo>): (t: seq<Byte>)
    ensures |t| == 16 * |infos|
  {
    if infos == [] then [] else EncodeTable(infos[..|infos| - 1]) + EncodeInfo(infos[|infos| - 1])
  }

  /** Record k of an encoded table sits at offset 16k. */
  lemma {:induction false} EncodeTableAt(infos: seq<TextureInfo>, k: nat)
    requires k < |infos|
    ensures EncodeTable(infos)[16 * k..16 * k + 16] == EncodeInfo(infos[k])
    decreases |infos|
  {
    var init := infos[..|infos| - 1];
    if k < |init| {
      EncodeTableAt(init, k);
      PrefixOfAppend(EncodeTable(init), EncodeInfo(infos[|infos| - 1]), 16 * k, 16 * k + 16);
    } else {
      SuffixOfAppend(EncodeTable(init), EncodeInfo(infos[|infos| - 1]), 0, 16);
    }
  }

  /** Record k of an encoded table followed by fewer than 16 stray bytes reads back as written. */
  lemma TableRecordRoundTrip(infos: seq<TextureInfo>, tail: seq<Byte>, k: nat)
    requires |tail| < 16 && k < |infos|
    ensures 16 * k + 16 <= |EncodeTable(infos) + tail|
    ensures DecodeInfo((EncodeTable(infos) + tail)[16 * k..16 * k + 16]) == infos[k]
  {
    var t := EncodeTable(infos);
    assert 16 * k + 16 <= |t|;
    PrefixOfAppend(t, tail, 16 * k, 16 * k + 16);
    EncodeTableAt(infos, k);
    DecodeEncodeInfo(infos[k]);
  }

  /** A header file written for `infos`, with fewer than 16 stray bytes after it, reads back as `infos`. */
  lemma HeaderRoundTrip(infos: seq<TextureInfo>, tail: seq<Byte>)
    requires |tail| < 16
    ensures HeaderTable(EncodeTable(infos) + tail) == infos
  {
    var data := EncodeTable(infos) + tail;
    assert |data| / 16 == |infos|;
    forall k | 0 <= k < |infos|
      ensures HeaderTable(data)[k] == infos[k]
    {
      TableRecordRoundTrip(infos, tail, k);
    }
  }

  // ---------------------------------------------------------------------------
  // 4444 pixels
  // ---------------------------------------------------------------------------

  /**
   * The RGBA bytes of one pixel stored as bytes `b0`, `b1`: green and blue
   * are the high and low nibbles of `b0`, alpha and red those of `b1`.
   */
  function Pixel(b0: Byte, b1: Byte, scale: Scale): (rgba: seq<Byte>)
    ensures |rgba| == 4
  {
    [scale[LowNibble(b1)], scale[HighNibble(b0)], scale[LowNibble(b0)], scale[HighNibble(b1)]]
  }

  /** The RGBA bytes of the `n` pixels stored two bytes each from position `at` of `data`. */
  function Decode4444(data: seq<Byte>, at: nat, n: nat, scale: Scale): (rgba: seq<Byte>)
    requires at + 2 * n <= |data|
    ensures |rgba| == 4 * n
  {
    if n == 0 then []
    else Decode4444(data, at, n - 1, scale) + Pixel(data[at + 2 * n - 2], data[at + 2 * n - 1], scale)
  }

  /** Output bytes 4k..4k+3 are r, g, b, a of pixel k, taken from input bytes at+2k and at+2k+1. */
  lemma {:induction false} Decode4444At(data: seq<Byte>, at: nat, n: nat, scale: Scale, k: nat)
    requires at + 2 * n <= |data| && k < n
    ensures Decode4444(data, at, n, scale)[4 * k..4 * k + 4] == Pixel(data[at + 2 * k], data[at + 2 * k + 1], scale)
  {
    var init := Decode4444(data, at, n - 1, scale);
    var last := Pixel(data[at + 2 * n - 2], data[at + 2 * n - 1], scale);
    assert Decode4444(data, at, n, scale) == init + last;
    if k < n - 1 {
      Decode4444At(data, at, n - 1, scale, k);
      PrefixOfAppend(init, last, 4 * k, 4 * k + 4);
    } else {
      SuffixOfAppend(init, last, 0, 4);
    }
  }

  /** The channels of pixel k, one by one. */
  lemma Decode4444Channels(data: seq<Byte>, at: nat, n: nat, scale: Scale, k: nat)
    requires at + 2 * n <= |data| && k < n
    ensures var rgba := Decode4444(data, at, n, scale);
      && rgba[4 * k] == scale[LowNibble(data[at + 2 * k + 1])]
      && rgba[4 * k + 1] == scale[HighNibble(data[at + 2 * k])]
      && rgba[4 * k + 2] == scale[LowNibble(data[at + 2 * k])]
      && rgba[4 * k + 3] == scale[HighNibble(data[at + 2 * k + 1])]
  {
    Decode4444At(data, at, n, scale, k);
    var px := Decode4444(data, at, n, scale)[4 * k..4 * k + 4];
    assert px[0] == Decode4444(data, at, n, scale)[4 * k];
    assert px[1] == Decode4444(data, at, n, scale)[4 * k + 1];
    assert px[2] == Decode4444(data, at, n, scale)[4 * k + 2];
    assert px[3] == Decode4444(data, at, n, scale)[4 * k + 3];
  }

  /** With a one-to-one scale, a pixel's RGBA bytes determine its two stored bytes. */
  lemma PixelInjective(b0: Byte, b1: Byte, c0: Byte, c1: Byte, scale: Scale)
    requires forall x: Nibble, y: Nibble :: scale[x] == scale[y] ==> x == y
    requires Pixel(b0, b1, scale) == Pixel(c0, c1, scale)
    ensures b0 == c0 && b1 == c1
  {
    var p, q := Pixel(b0, b1, scale), Pixel(c0, c1, scale);
    assert p[0] == q[0] && p[1] == q[1] && p[2] == q[2] && p[3] == q[3];
    NibbleSplit(b0);
    NibbleSplit(b1);
  }

  /** The image `load_texture_from_reader` builds from a raw file, or why it cannot. */
  function Texture(raw: seq<Byte>, info: TextureInfo, scale: Scale): Result<RgbaImage>
  {
    var n := info.width as int * info.height as int;
    if n == 0 then Ok(RgbaImage(info.width, info.height, []))
    else if info.offset as int + 2 * n <= |raw| then
      Ok(RgbaImage(info.width, info.height, Decode4444(raw, info.offset, n, scale)))
    else Err(UnexpectedEof)
  }

  /** `RgbaImage::from_vec`: an image needs at least 4 bytes per pixel. */
  function FromVec(width: U16, height: U16, pixels: seq<Byte>): (img: Result<RgbaImage>)
  {
    if |pixels| < 4 * (width as int * height as int) then Err(BufferTooSmall)
    else Ok(RgbaImage(width, height, pixels))
  }

  /** A decoded texture is never too small for its image, and the format byte plays no part. */
  lemma TextureShape(raw: seq<Byte>, info: TextureInfo, scale: Scale, format: Byte)
    ensures Texture(raw, info, scale).Ok? ==>
      var img := Texture(raw, info, scale).value;
      && img.width == info.width && img.height == info.height
      && |img.pixels| == 4 * (info.width as int * info.height as int)
      && FromVec(info.width, info.height, img.pixels) == Ok(img)
    ensures Texture(raw, info.(pixelFormat := format), scale) == Texture(raw, info, scale)
  {
  }

  /** A texture decodes exactly when its pixels lie within the raw file (or it has none). */
  lemma TextureFits(raw: seq<Byte>, info: TextureInfo, scale: Scale)
    ensures Texture(raw, info, scale).Ok? <==>
      info.width as int * info.height as int == 0
      || info.offset as int + 2 * (info.width as int * info.height as int) <= |raw|
  {
  }

  // ---------------------------------------------------------------------------
  // The reader side
  // ---------------------------------------------------------------------------

  /** A record read in place: each field from its offset within the 16 bytes at `p`. */
  lemma DecodeInfoAt(data: seq<Byte>, p: nat)
    requires p + 16 <= |data|
    ensures DecodeInfo(data[p..p + 16]) ==
      TextureInfo(LeU16(data[p..p + 2]), LeU16(data[p + 2..p + 4]), data[p + 4], data[p + 5],
                  LeU16(data[p + 6..p + 8]), LeU32(data[p + 8..p + 12]), LeU16(data[p + 12..p + 14]),
                  LeU16(data[p + 14..p + 16]))
  {
    SliceOfSlice(data, p, p + 16, 0, 2);
    SliceOfSlice(data, p, p + 16, 2, 4);
    SliceOfSlice(data, p, p + 16, 6, 8);
    SliceOfSlice(data, p, p + 16, 8, 12);
    SliceOfSlice(data, p, p + 16, 12, 14);
    SliceOfSlice(data, p, p + 16, 14, 16);
  }

  /** `TextureInfo::from_reader`: eight little-endian fields, 16 bytes in all. */
  method FromReader(r: ByteReader) returns (res: Result<TextureInfo>)
    modifies r
    ensures old(r.pos) + 16 <= |r.data| ==>
      res == Ok(DecodeInfo(r.data[old(r.pos)..old(r.pos) + 16])) && r.pos == old(r.pos) + 16
    ensures old(r.pos) + 16 > |r.data| ==> res == Err(UnexpectedEof) && r.pos == Max(old(r.pos), |r.data|)
  {
    ghost var p := r.pos;
    var width :- r.ReadU16();
    var height :- r.ReadU16();
    var pixelFormat :- r.ReadU8();
    var unk0 :- r.ReadU8();
    var unk1 :- r.ReadU16();
    var offset :- r.ReadU32();
    var textureId :- r.ReadU16();
    var unk4 :- r.ReadU16();
    DecodeInfoAt(r.data, p);
    res := Ok(TextureInfo(width, height, pixelFormat, unk0, unk1, offset, textureId, unk4));
  }

  /**
   * `TextureInfo::all_from_reader`: the source's length fixes the number of
   * records, `size / 16`, which are then read from offset 0. Every one of
   * them fits, so it never fails.
   */
  method AllFromReader(r: ByteReader) returns (res: Result<seq<TextureInfo>>)
    modifies r
    ensures res == Ok(HeaderTable(r.data))
    ensures r.pos == 16 * (|r.data| / 16)
  {
    var size := r.SeekEnd();
    r.Seek(0);
    var numHeaders := size / 16;
    var headers: seq<TextureInfo> := [];
    for i := 0 to numHeaders
      invariant r.pos == 16 * i
      invariant headers == HeaderTable(r.data)[..i]
    {
      RecordInFile(size, i);
      var header := FromReader(r);
      headers := headers + [header.value];
    }
    assert HeaderTable(r.data)[..numHeaders] == HeaderTable(r.data);
    res := Ok(headers);
  }

  /** `BankHeader::from_path`, given the bytes of the `.header` file. */
  method LoadBankHeader(contents: seq<Byte>) returns (res: Result<seq<TextureInfo>>)
    ensures res == Ok(HeaderTable(contents))
  {
    var r := new ByteReader(contents);
    res := AllFromReader(r);
  }

  /** `read_44_pixel`: one byte, split into its high and low nibbles, each scaled. */
  method Read44Pixel(r: ByteReader, scale: Scale) returns (res: Result<(Byte, Byte)>)
    modifies r
    ensures old(r.pos) < |r.data| ==>
      res == Ok((scale[HighNibble(r.data[old(r.pos)])], scale[LowNibble(r.data[old(r.pos)])]))
      && r.pos == old(r.pos) + 1
    ensures old(r.pos) >= |r.data| ==> res == Err(UnexpectedEof) && r.pos == old(r.pos)
  {
    var b :- r.ReadU8();
    res := Ok((scale[HighNibble(b)], scale[LowNibble(b)]));
  }

  /**
   * `read_pixel_data`: `width * height` pixels of two bytes each, expanded
   * to r, g, b, a. A source that ends early fails the whole read.
   */
  method ReadPixelData(info: TextureInfo, r: ByteReader, scale: Scale) returns (res: Result<seq<Byte>>)
    modifies r
    ensures var n := info.width as int * info.height as int;
      && (n == 0 ==> res == Ok([]) && r.pos == old(r.pos))
      && (n > 0 && old(r.pos) + 2 * n <= |r.data| ==>
            res == Ok(Decode4444(r.data, old(r.pos), n, scale)) && r.pos == old(r.pos) + 2 * n)
      && (n > 0 && old(r.pos) + 2 * n > |r.data| ==>
            res == Err(UnexpectedEof) && r.pos == Max(old(r.pos), |r.data|))
  {
    var numPixels := info.width as int * info.height as int;
    ghost var start := r.pos;
    var pixels: seq<Byte> := [];
    for k := 0 to numPixels
      invariant r.pos == start + 2 * k
      invariant k > 0 ==> start + 2 * k <= |r.data|
      invariant k > 0 ==> pixels == Decode4444(r.data, start, k, scale)
      invariant k == 0 ==> pixels == []
    {
      var gb :- Read44Pixel(r, scale);
      var ar :- Read44Pixel(r, scale);
      pixels := pixels + [ar.1, gb.0, gb.1, ar.0];
    }
    res := Ok(pixels);
  }

  /** `load_texture_from_reader`: seek to the texture's offset, read its pixels, wrap them as an image. */
  method LoadTexture(info: TextureInfo, r: ByteReader, scale: Scale) returns (res: Result<RgbaImage>)
    modifies r
    ensures res == Texture(r.data, info, scale)
    ensures var n := info.width as int * info.height as int;
      r.pos == if n == 0 || info.offset as int + 2 * n <= |r.data| then info.offset as int + 2 * n
               else Max(info.offset as int, |r.data|)
  {
    r.Seek(info.offset);
    var pixels :- ReadPixelData(info, r, scale);
    res := FromVec(info.width, info.height, pixels);
  }
}
