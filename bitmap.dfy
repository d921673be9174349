/** The bitmap buffer: row stride, where each pixel's bit lives, setting one
    bit, packing a whole image, and the optional polarity inversion. */
module Bitmap {
  import opened Bits
  import opened Threshold
  import opened Arith

  /** Bytes per row: one bit per pixel, rounded up to a whole byte. The
      source computes ceil(width / 8.0) in floating point; for every int
      width that is the integer ceiling stated here. */
  function RowStride(width: nat): (stride: nat)
    ensures width <= 8 * stride < width + 8
    ensures width > 0 ==> stride > 0
  {
    (width + 7) / 8
  }

  /** Row strides for the widths 1, 8 and 9. */
  lemma RowStrideExamples()
    ensures RowStride(1) == 1 && RowStride(8) == 1 && RowStride(9) == 2
  {
  }

  /** Index of the byte holding pixel (x, y). */
  function ByteIndex(x: nat, y: nat, stride: nat): nat
  {
    y * stride + x / 8
  }

  /** The bit of pixel (x, y) in buffer s: bit x % 8, counted from the most
      significant bit, of byte ByteIndex(x, y, stride). Outside the buffer
      there is no bit, which reads as 0. */
  predicate PixelBit(s: seq<bv8>, stride: nat, x: nat, y: nat)
  {
    var i := ByteIndex(x, y, stride);
    i < |s| && Bit(s[i], x % 8)
  }

  /** Every pixel of a row of `stride` bytes has its own byte in a buffer
      of `height` such rows. */
  lemma ByteIndexBound(x: nat, y: nat, stride: nat, height: nat)
    requires x < 8 * stride && y < height
    ensures ByteIndex(x, y, stride) < height * stride
  {
    assert y * stride + stride <= height * stride by {
      MulMono(y + 1, height, stride);
    }
  }

  /** Two pixels of rows of the same stride share a byte only when they are
      in the same row and the same group of eight columns. */
  lemma ByteIndexInjective(x: nat, y: nat, x': nat, y': nat, stride: nat)
    requires x < 8 * stride && x' < 8 * stride
    requires ByteIndex(x, y, stride) == ByteIndex(x', y', stride)
    ensures y == y' && x / 8 == x' / 8
  {
    DivModUnique(ByteIndex(x, y, stride), stride, y, x / 8);
    DivModUnique(ByteIndex(x', y', stride), stride, y', x' / 8);
  }

  /** Byte i of a buffer of rows of `stride` bytes is byte i % stride of
      row i / stride. */
  lemma ByteOfIndex(i: nat, stride: nat, height: nat)
    requires i < height * stride
    ensures stride > 0 && i / stride < height
    ensures ByteIndex(8 * (i % stride), i / stride, stride) == i
  {
    if i / stride >= height {
      MulMono(height, i / stride, stride);
    }
  }

  /** The bit of pixel (8 * (i % stride) + k, i / stride) is bit k of byte i. */
  lemma PixelBitOfByte(s: seq<bv8>, stride: nat, height: nat, i: nat, k: nat)
    requires |s| == height * stride && i < |s| && k < 8
    ensures stride > 0 && i / stride < height && 8 * (i % stride) + k < 8 * stride
    ensures PixelBit(s, stride, 8 * (i % stride) + k, i / stride) == Bit(s[i], k)
  {
    ByteOfIndex(i, stride, height);
    var x := 8 * (i % stride) + k;
    assert x / 8 == i % stride && x % 8 == k;
  }

  /** A buffer of whole rows is determined by its pixel bits. */
  lemma {:induction false} BufferExt(a: seq<bv8>, b: seq<bv8>, stride: nat, height: nat)
    requires |a| == |b| == height * stride
    requires forall y, x :: 0 <= y < height && 0 <= x < 8 * stride ==>
               PixelBit(a, stride, x, y) == PixelBit(b, stride, x, y)
    ensures a == b
  {
    forall i | 0 <= i < |a|
      ensures a[i] == b[i]
    {
      forall k | 0 <= k < 8
        ensures Bit(a[i], k) <==> Bit(b[i], k)
      {
        PixelBitOfByte(a, stride, height, i, k);
        PixelBitOfByte(b, stride, height, i, k);
      }
      ByteExt(a[i], b[i]);
    }
  }

  /** The buffer after `setPixel(x, y)`: the pixel's mask is OR-ed into its
      byte, and no other byte changes. */
  function WithPixel(s: seq<bv8>, stride: nat, x: nat, y: nat): (r: seq<bv8>)
    requires ByteIndex(x, y, stride) < |s|
    ensures |r| == |s|
    ensures forall i :: 0 <= i < |s| && i != ByteIndex(x, y, stride) ==> r[i] == s[i]
    ensures PixelBit(r, stride, x, y)
    ensures forall k :: 0 <= k < 8 ==>
              (Bit(r[ByteIndex(x, y, stride)], k) <==> Bit(s[ByteIndex(x, y, stride)], k) || k == x % 8)
  {
    var i := ByteIndex(x, y, stride);
    OrMaskBits(s[i], x % 8);
    s[i := s[i] | Mask(x % 8)]
  }

  /** setPixel sets the bit of (x, y) and no other pixel's bit. */
  lemma WithPixelBit(s: seq<bv8>, stride: nat, x: nat, y: nat, x': nat, y': nat)
    requires x < 8 * stride && x' < 8 * stride
    requires ByteIndex(x, y, stride) < |s|
    ensures PixelBit(WithPixel(s, stride, x, y), stride, x', y') <==>
              PixelBit(s, stride, x', y') || (x' == x && y' == y)
  {
    if ByteIndex(x', y', stride) == ByteIndex(x, y, stride) {
      ByteIndexInjective(x, y, x', y', stride);
    }
  }

  /** Setting the same pixel twice is the same as setting it once. */
  lemma WithPixelIdempotent(s: seq<bv8>, stride: nat, x: nat, y: nat)
    requires ByteIndex(x, y, stride) < |s|
    ensures WithPixel(WithPixel(s, stride, x, y), stride, x, y) == WithPixel(s, stride, x, y)
  {
    var i := ByteIndex(x, y, stride);
    assert (s[i] | Mask(x % 8)) | Mask(x % 8) == s[i] | Mask(x % 8);
  }

  /** `setPixel`: OR the pixel's mask into its byte, in place. */
  method SetPixel(imageBytes: array<bv8>, x: nat, y: nat, stride: nat)
    requires ByteIndex(x, y, stride) < imageBytes.Length
    modifies imageBytes
    ensures imageBytes[..] == WithPixel(old(imageBytes[..]), stride, x, y)
  {
    var bit := x % 8;
    var byteIdx := y * stride + x / 8;
    imageBytes[byteIdx] := imageBytes[byteIdx] | Mask(bit);
  }

  /** The buffer s holds image img: the bit of every pixel inside the image
      is its thresholded value (complemented when `invert` is set), and
      every padding bit, at a column from the width up to the end of the
      row's last byte, is 0. */
  ghost predicate Encodes(s: seq<bv8>, img: Image, invert: bool)
    requires img.Valid()
  {
    var stride := RowStride(img.width);
    |s| == img.height * stride &&
    forall y, x :: 0 <= y < img.height && 0 <= x < 8 * stride ==>
      PixelBit(s, stride, x, y) == (x < img.width && IsLight(img.rgb[y][x]) != invert)
  }

  /** The encoding of an image is unique: the header's byte count and the
      payload are fixed by the image and the inversion flag alone. */
  lemma EncodesUnique(a: seq<bv8>, b: seq<bv8>, img: Image, invert: bool)
    requires img.Valid() && Encodes(a, img, invert) && Encodes(b, img, invert)
    ensures a == b
  {
    BufferExt(a, b, RowStride(img.width), img.height);
  }

  /** Packing an 8 x 1 image whose only light pixel is at column 0 gives
      the single byte 0x80: column 0 is the most significant bit. */
  lemma FirstColumnIsMsb(row: seq<Rgb>, s: seq<bv8>)
    requires |row| == 8 && row[0] == Rgb(255, 255, 255)
    requires forall x :: 1 <= x < 8 ==> row[x] == Rgb(0, 0, 0)
    requires Encodes(s, Image(8, 1, [row]), false)
    ensures s == [0x80]
  {
    OneByteEncodes(Image(8, 1, [row]), s);
    FirstColumnByte(s[0], row);
    SingleByte(s, 0x80);
  }

  /** The buffer of an 8 x 1 image is one byte whose bits are its pixels. */
  lemma OneByteEncodes(img: Image, s: seq<bv8>)
    requires img.Valid() && img.width == 8 && img.height == 1
    requires Encodes(s, img, false)
    ensures |s| == 1 && forall k :: 0 <= k < 8 ==> (Bit(s[0], k) <==> IsLight(img.rgb[0][k]))
  {
    assert RowStride(img.width) == 1;
    forall k | 0 <= k < 8
      ensures Bit(s[0], k) <==> IsLight(img.rgb[0][k])
    {
      EncodedBit(s, img, false, k, 0);
      OneByteRowBit(s, k);
    }
  }

  /** The byte of a row of one light pixel followed by seven dark ones is
      0x80. */
  lemma FirstColumnByte(b: bv8, row: seq<Rgb>)
    requires |row| == 8
    requires row[0] == Rgb(255, 255, 255)
    requires forall x :: 1 <= x < 8 ==> row[x] == Rgb(0, 0, 0)
    requires forall k :: 0 <= k < 8 ==> (Bit(b, k) <==> IsLight(row[k]))
    ensures b == 0x80
  {
    assert IsLight(Rgb(255, 255, 255)) && !IsLight(Rgb(0, 0, 0));
    forall k | 0 <= k < 8
      ensures Bit(b, k) <==> Bit(Mask(0), k)
    {
      MaskBit(0, k);
    }
    ByteExt(b, Mask(0));
  }

  lemma SingleByte(s: seq<bv8>, b: bv8)
    requires |s| == 1 && s[0] == b
    ensures s == [b]
  {
  }

  lemma OneByteRowBit(s: seq<bv8>, k: nat)
    requires |s| == 1 && k < 8
    ensures PixelBit(s, 1, k, 0) == Bit(s[0], k)
  {
  }

  /** One pixel's bit, by definition of Encodes. */
  lemma EncodedBit(s: seq<bv8>, img: Image, invert: bool, x: nat, y: nat)
    requires img.Valid() && Encodes(s, img, invert)
    requires y < img.height && x < img.width
    ensures PixelBit(s, RowStride(img.width), x, y) == (IsLight(img.rgb[y][x]) != invert)
  {
  }

  /** The nested y/x loop of `convertImage`: a zero-filled buffer of
      height * stride bytes in which `setPixel` is called for every light
      pixel. */
  method Pack(img: Image) returns (imageBytes: array<bv8>)
    requires img.Valid()
    ensures fresh(imageBytes)
    ensures Encodes(imageBytes[..], img, false)
  {
    var stride := RowStride(img.width);
    imageBytes := new bv8[img.height * stride](_ => 0);
    var y := 0;
    while y < img.height
      invariant 0 <= y <= img.height
      invariant imageBytes.Length == img.height * stride
      invariant forall r, c :: 0 <= r < img.height && 0 <= c < 8 * stride ==>
                  PixelBit(imageBytes[..], stride, c, r) == (r < y && c < img.width && IsLight(img.rgb[r][c]))
    {
      var x := 0;
      while x < img.width
        invariant 0 <= x <= img.width
        invariant forall r, c :: 0 <= r < img.height && 0 <= c < 8 * stride ==>
                    PixelBit(imageBytes[..], stride, c, r) ==
                    ((r < y || (r == y && c < x)) && c < img.width && IsLight(img.rgb[r][c]))
      {
        var bit := IsLight(img.rgb[y][x]);
        if bit {
          ghost var before := imageBytes[..];
          ByteIndexBound(x, y, stride, img.height);
          SetPixel(imageBytes, x, y, stride);
          forall r, c | 0 <= r < img.height && 0 <= c < 8 * stride
            ensures PixelBit(imageBytes[..], stride, c, r) == (PixelBit(before, stride, c, r) || (c == x && r == y))
          {
            WithPixelBit(before, stride, x, y, c, r);
          }
        }
        x := x + 1;
      }
      y := y + 1;
    }
  }

  /** Every padding bit of the buffer is 0. */
  ghost predicate PaddingClear(s: seq<bv8>, width: nat, height: nat)
  {
    var stride := RowStride(width);
    forall y, x :: 0 <= y < height && width <= x < 8 * stride ==> !PixelBit(s, stride, x, y)
  }

  /** The padding bits of an encoding buffer are 0, by definition of
      Encodes; Pack and InvertedEncodes are where this is established. */
  lemma EncodesPaddingClear(s: seq<bv8>, img: Image, invert: bool)
    requires img.Valid() && Encodes(s, img, invert)
    ensures PaddingClear(s, img.width, img.height)
  {
  }

  /** The first inversion loop: every padding bit forced to 1. */
  function Padded(s: seq<bv8>, width: nat, stride: nat): (r: seq<bv8>)
    requires stride > 0
    ensures |r| == |s|
  {
    seq(|s|, i requires 0 <= i < |s| => s[i] | PaddingMask(width, i % stride))
  }

  /** The second inversion loop: every byte XOR-ed with 0xFF. */
  function Flipped(s: seq<bv8>): (r: seq<bv8>)
    ensures |r| == |s|
    ensures forall i, k :: 0 <= i < |s| && 0 <= k < 8 ==> (Bit(r[i], k) <==> !Bit(s[i], k))
  {
    assert forall i, k :: 0 <= i < |s| && 0 <= k < 8 ==> (Bit(s[i] ^ 0xFF, k) <==> !Bit(s[i], k)) by {
      forall i, k | 0 <= i < |s| && 0 <= k < 8 ensures Bit(s[i] ^ 0xFF, k) <==> !Bit(s[i], k) {
        FlipBit(s[i], k);
      }
    }
    seq(|s|, i requires 0 <= i < |s| => s[i] ^ 0xFF)
  }

  /** The whole polarity inversion. */
  function Inverted(s: seq<bv8>, width: nat, stride: nat): (r: seq<bv8>)
    requires stride > 0
    ensures |r| == |s|
  {
    Flipped(Padded(s, width, stride))
  }

  /** After the padding loop, a padding bit is 1 and every image bit is as
      it was. */
  lemma PaddedBit(s: seq<bv8>, width: nat, height: nat, x: nat, y: nat)
    requires |s| == height * RowStride(width) && width > 0
    requires y < height && x < 8 * RowStride(width)
    ensures PixelBit(Padded(s, width, RowStride(width)), RowStride(width), x, y) <==>
              PixelBit(s, RowStride(width), x, y) || x >= width
  {
    var stride := RowStride(width);
    var i := ByteIndex(x, y, stride);
    ByteIndexBound(x, y, stride, height);
    DivModUnique(i, stride, y, x / 8);
    var m := PaddingMask(width, x / 8);
    assert Padded(s, width, stride)[i] == s[i] | m;
    assert Bit(m, x % 8) <==> x >= width;
    OrBit(s[i], m, x % 8);
  }

  /** Inversion complements every image bit and clears every padding bit,
      whatever the padding held before. */
  lemma InvertedBit(s: seq<bv8>, width: nat, height: nat, x: nat, y: nat)
    requires |s| == height * RowStride(width) && width > 0
    requires y < height && x < 8 * RowStride(width)
    ensures PixelBit(Inverted(s, width, RowStride(width)), RowStride(width), x, y) <==>
              x < width && !PixelBit(s, RowStride(width), x, y)
  {
    var stride := RowStride(width);
    PaddedBit(s, width, height, x, y);
    ByteIndexBound(x, y, stride, height);
  }

  /** Inverting a packed image gives the packing of the inverted image, so
      the padding stays clear with or without `-i`. */
  lemma InvertedEncodes(s: seq<bv8>, img: Image)
    requires img.Valid() && Encodes(s, img, false)
    ensures Encodes(Inverted(s, img.width, RowStride(img.width)), img, true)
  {
    forall y, x | 0 <= y < img.height && 0 <= x < 8 * RowStride(img.width)
      ensures PixelBit(Inverted(s, img.width, RowStride(img.width)), RowStride(img.width), x, y) ==
                (x < img.width && IsLight(img.rgb[y][x]) != true)
    {
      InvertedBit(s, img.width, img.height, x, y);
    }
  }

  /** Inverting twice restores every image bit and leaves the padding
      clear; the padding is not restored if it was set before. */
  lemma InvertTwiceBit(s: seq<bv8>, width: nat, height: nat, x: nat, y: nat)
    requires |s| == height * RowStride(width) && width > 0
    requires y < height && x < 8 * RowStride(width)
    ensures var stride := RowStride(width);
            PixelBit(Inverted(Inverted(s, width, stride), width, stride), stride, x, y) <==>
              x < width && PixelBit(s, stride, x, y)
  {
    var stride := RowStride(width);
    InvertedBit(s, width, height, x, y);
    InvertedBit(Inverted(s, width, stride), width, height, x, y);
  }

  /** On a buffer whose padding is clear, as every packed buffer is,
      inversion is an involution. */
  lemma InvertInvolution(s: seq<bv8>, width: nat, height: nat)
    requires |s| == height * RowStride(width) && width > 0
    requires PaddingClear(s, width, height)
    ensures Inverted(Inverted(s, width, RowStride(width)), width, RowStride(width)) == s
  {
    var stride := RowStride(width);
    var t := Inverted(Inverted(s, width, stride), width, stride);
    forall y, x | 0 <= y < height && 0 <= x < 8 * stride
      ensures PixelBit(t, stride, x, y) == PixelBit(s, stride, x, y)
    {
      InvertTwiceBit(s, width, height, x, y);
    }
    BufferExt(t, s, stride, height);
  }

  /** The `-i` branch of `convertImage`: `setPixel` on every padding column
      of every row, then every byte XOR-ed with 0xFF, in place. */
  method Invert(imageBytes: array<bv8>, width: nat, height: nat)
    requires width > 0 && imageBytes.Length == height * RowStride(width)
    modifies imageBytes
    ensures imageBytes[..] == Inverted(old(imageBytes[..]), width, RowStride(width))
  {
    var stride := RowStride(width);
    var y := 0;
    while y < height
      invariant 0 <= y <= height
      invariant forall r, c :: 0 <= r < height && 0 <= c < 8 * stride ==>
                  PixelBit(imageBytes[..], stride, c, r) ==
                  (PixelBit(old(imageBytes[..]), stride, c, r) || (r < y && c >= width))
    {
      var x := width;
      while x < stride * 8
        invariant width <= x <= 8 * stride
        invariant forall r, c :: 0 <= r < height && 0 <= c < 8 * stride ==>
                    PixelBit(imageBytes[..], stride, c, r) ==
                    (PixelBit(old(imageBytes[..]), stride, c, r) || ((r < y || (r == y && c < x)) && c >= width))
      {
        ghost var before := imageBytes[..];
        ByteIndexBound(x, y, stride, height);
        SetPixel(imageBytes, x, y, stride);
        forall r, c | 0 <= r < height && 0 <= c < 8 * stride
          ensures PixelBit(imageBytes[..], stride, c, r) == (PixelBit(before, stride, c, r) || (c == x && r == y))
        {
          WithPixelBit(before, stride, x, y, c, r);
        }
        x := x + 1;
      }
      y := y + 1;
    }
    ghost var padded := imageBytes[..];
    forall r, c | 0 <= r < height && 0 <= c < 8 * stride
      ensures PixelBit(padded, stride, c, r) == PixelBit(Padded(old(imageBytes[..]), width, stride), stride, c, r)
    {
      PaddedBit(old(imageBytes[..]), width, height, c, r);
    }
    BufferExt(padded, Padded(old(imageBytes[..]), width, stride), stride, height);

    var i := 0;
    while i < imageBytes.Length
      invariant 0 <= i <= imageBytes.Length
      invariant forall j :: 0 <= j < i ==> imageBytes[j] == padded[j] ^ 0xFF
      invariant forall j :: i <= j < imageBytes.Length ==> imageBytes[j] == padded[j]
    {
      imageBytes[i] := imageBytes[i] ^ 0xFF;
      i := i + 1;
    }
  }
}
