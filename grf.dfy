/** `convertImage` end to end: threshold and pack the image, optionally
    invert it, serialise it as hex, optionally break the hex into rows, and
    wrap it in the `~DG` container. GrfReadBack shows that a reader of the
    text recovers every field and every byte. */
module Grf {
  import opened Options
  import opened Threshold
  import opened Bitmap
  import opened Hex
  import opened LineBreak
  import opened Container

  /** The payload of the container: the hex string, broken before every
      row when `withLB` is set. */
  function Payload(bytes: seq<bv8>, stride: nat, withLB: bool): string
    requires stride > 0
  {
    if withLB then Lines(EncodeHex(bytes), 2 * stride) else EncodeHex(bytes)
  }

  /** The text written to `<name>.grf`. */
  function GrfText(name: string, stride: nat, bytes: seq<bv8>, withLB: bool): string
    requires stride > 0
  {
    Render(Document(name, |bytes|, stride, Payload(bytes, stride, withLB)))
  }

  /** The encoding body of `convertImage`: the bytes written are the packed
      image (complemented, padding included, under `invertPixels`), and the
      text is their container. */
  method ConvertImage(img: Image, outputFileName: string, withLB: bool, invertPixels: bool)
    returns (imageBytes: seq<bv8>, grf: string)
    requires img.Valid()
    ensures Encodes(imageBytes, img, invertPixels)
    ensures grf == GrfText(outputFileName, RowStride(img.width), imageBytes, withLB)
  {
    var rowWidthBytes := RowStride(img.width);
    var buffer := Pack(img);
    if invertPixels {
      ghost var packed := buffer[..];
      Invert(buffer, img.width, img.height);
      InvertedEncodes(packed, img);
    }
    imageBytes := buffer[..];
    var byteAsString := EncodeHex(imageBytes);
    if withLB {
      byteAsString := AddLineBreaks(byteAsString, rowWidthBytes);
    }
    grf := Render(Document(outputFileName, |imageBytes|, rowWidthBytes, byteAsString));
  }

  /** Deleting the line breaks from the payload gives the plain hex string,
      with or without `-lb`. */
  lemma PayloadHex(bytes: seq<bv8>, stride: nat, withLB: bool)
    requires stride > 0
    ensures RemoveBreaks(Payload(bytes, stride, withLB)) == EncodeHex(bytes)
  {
    EncodeHexDigits(bytes);
    assert '\n' !in EncodeHex(bytes);
    if withLB {
      RemoveBreaksLines(EncodeHex(bytes), 2 * stride);
    } else {
      RemoveBreaksNone(EncodeHex(bytes));
    }
  }

  /** A reader of the file recovers the name (when it holds no comma), the
      byte count, the row stride and every byte of the buffer. */
  lemma GrfReadBack(name: string, stride: nat, bytes: seq<bv8>, withLB: bool)
    requires stride > 0 && ',' !in name
    ensures var doc := Parse(GrfText(name, stride, bytes, withLB));
            doc.Some? && doc.value.name == name && doc.value.byteLength == |bytes| &&
            doc.value.rowStride == stride &&
            DecodeHex(RemoveBreaks(doc.value.payload)) == Some(bytes)
  {
    ParseRender(Document(name, |bytes|, stride, Payload(bytes, stride, withLB)));
    PayloadHex(bytes, stride, withLB);
    DecodeEncodeHex(bytes);
  }

  /** The file fixes the image: two conversions of the same image with the
      same options write the same text, and the byte count in the header is
      height * ceil(width / 8). */
  lemma GrfDeterministic(img: Image, name: string, withLB: bool, invert: bool, a: seq<bv8>, b: seq<bv8>)
    requires img.Valid() && Encodes(a, img, invert) && Encodes(b, img, invert)
    ensures GrfText(name, RowStride(img.width), a, withLB) == GrfText(name, RowStride(img.width), b, withLB)
    ensures |a| == img.height * RowStride(img.width)
  {
    EncodesUnique(a, b, img, invert);
  }
}
