# img2grf encoder model

img2grf turns a raster image into a GRF graphic for Zebra label printers:
a `~DG<name>,<byte count>,<row stride>,<hex data>` command whose data is
the image as a 1-bit-per-pixel bitmap. This project models the encoding
core of `App.java` in Dafny and proves what it promises:

- the mask table of the static initialiser (`bitMask[i] == 0x80 >> i`);
- the thresholder `getPixel`: a pixel is light exactly when
  `r + g + b >= 381`, i.e. its truncated grey level is at least 127;
- `setPixel`, which ORs one bit into the buffer at
  `y * rowStride + x / 8`, most significant bit first;
- the body of `convertImage`: the row stride `ceil(width / 8)`, the packing
  loops, the optional inversion (padding bits forced to 1, then every byte
  XORed with 0xFF), the lower-case hex serialisation, the optional `-lb`
  line breaks before every row of hex, and the `~DG` header.

Modules, one per file: `Arith` (division facts), `Bits` (masks and bits of
a byte), `Threshold` (pixels and the grey threshold), `Bitmap` (the buffer,
`setPixel`, packing and inversion), `Options` (an optional result), `Hex`
(hex serialisation and its decoder), `LineBreak` (the `-lb` loop and its
definition by rows), `Container` (the `~DG` text and a parser for it) and `Grf` (the whole
conversion). The buffer is specified bit by bit by `Bitmap.Encodes`: every
pixel bit is the thresholded pixel (complemented under `-i`) and every
padding bit is 0; `Bitmap.EncodesUnique` shows this fixes the bytes.

## Model

| member | source | states |
|---|---|---|
| Bits.MaskShift | src/main/java/org/orphanware/App.java:15-20 | the mask of bit position k is 0x80 shifted right by k |
| Bits.MaskBit | src/main/java/org/orphanware/App.java:15-20 | the mask of position m has bit k set iff k == m: one bit per column offset |
| Bits.InitBitMask | src/main/java/org/orphanware/App.java:15-20 | the initialiser loop fills an 8-entry table with exactly 0x80 >> i at index i |
| Bits.PaddingMask | src/main/java/org/orphanware/App.java:122-126 | the padding mask of byte j of a row has bit k set iff column 8j+k is at or past the width |
| Threshold.Gray | src/main/java/org/orphanware/App.java:183 | the grey level is in 0..255 and is the sum of the channels divided by 3, rounded down |
| Threshold.IsLight | src/main/java/org/orphanware/App.java:183-184 | a pixel is light iff r + g + b >= 381 |
| Threshold.ThresholdBoundary | src/main/java/org/orphanware/App.java:183-184 | grey 126 is dark, grey 127 is light, and a channel sum of 380 is still dark |
| Bitmap.RowStride | src/main/java/org/orphanware/App.java:106 | the stride is ceil(width / 8): width <= 8 * stride < width + 8, positive for a positive width |
| Bitmap.RowStrideExamples | src/main/java/org/orphanware/App.java:106 | widths 1, 8 and 9 give strides 1, 1 and 2 |
| Bitmap.ByteIndexBound | src/main/java/org/orphanware/App.java:189 | every column below 8 * stride of a row below the height addresses a byte inside the buffer |
| Bitmap.ByteIndexInjective | src/main/java/org/orphanware/App.java:189 | two pixels share a byte only when they are in the same row and the same group of 8 columns |
| Bitmap.WithPixel | src/main/java/org/orphanware/App.java:187-191 | setting a pixel keeps the length, changes only byte y * stride + x / 8, sets that pixel's bit and keeps the byte's other bits |
| Bitmap.WithPixelBit | src/main/java/org/orphanware/App.java:187-191 | after setting pixel (x, y), a pixel's bit is its old bit or-ed with "it is (x, y)": no other pixel changes |
| Bitmap.WithPixelIdempotent | src/main/java/org/orphanware/App.java:187-191 | setting the same pixel twice is the same as setting it once |
| Bitmap.SetPixel | src/main/java/org/orphanware/App.java:187-191 | the array afterwards is the old contents with the pixel set, as WithPixel describes |
| Bitmap.EncodesUnique | src/main/java/org/orphanware/App.java:110-118 | two buffers that both encode the same image with the same inversion flag are equal |
| Bitmap.FirstColumnIsMsb | src/main/java/org/orphanware/App.java:112-118 | the 8 x 1 image whose row is one white pixel then seven black ones packs to the single byte 0x80 |
| Bitmap.EncodedBit | src/main/java/org/orphanware/App.java:112-118 | by definition of Encodes, each in-image pixel bit is the thresholded pixel, complemented under inversion; Pack is where it is established |
| Bitmap.Pack | src/main/java/org/orphanware/App.java:110-118 | the packing loops give a fresh buffer of height * stride bytes whose pixel bits are the thresholded pixels and whose padding bits are 0 |
| Bitmap.EncodesPaddingClear | src/main/java/org/orphanware/App.java:110-118 | by definition of Encodes, every padding bit is 0; Pack and InvertedEncodes are where it is established |
| Bitmap.Padded | src/main/java/org/orphanware/App.java:122-126 | the padding loop's result keeps the length and ORs each byte with the padding mask of its place in the row; PaddedBit gives its pixel-level meaning |
| Bitmap.Flipped | src/main/java/org/orphanware/App.java:129-131 | XOR with 0xFF complements every bit of every byte |
| Bitmap.Inverted | src/main/java/org/orphanware/App.java:120-132 | the whole inversion, Padded then Flipped, keeps the length; InvertedBit gives its pixel-level meaning and Bitmap.Invert is proved equal to it |
| Bitmap.PaddedBit | src/main/java/org/orphanware/App.java:122-126 | after the padding loop a bit is set iff it was set before or it lies at or past the width |
| Bitmap.InvertedBit | src/main/java/org/orphanware/App.java:120-132 | after inversion an in-image bit is the complement of the old bit and a padding bit is 0 |
| Bitmap.InvertedEncodes | src/main/java/org/orphanware/App.java:120-132 | inverting a buffer that encodes an image gives the buffer that encodes it with inversion |
| Bitmap.InvertTwiceBit | src/main/java/org/orphanware/App.java:120-132 | inverting twice restores every in-image bit and clears every padding bit |
| Bitmap.InvertInvolution | src/main/java/org/orphanware/App.java:120-132 | on a buffer with clear padding, inverting twice gives the buffer back |
| Bitmap.Invert | src/main/java/org/orphanware/App.java:120-132 | the padding loop and the XOR loop leave the array equal to Inverted of its old contents |
| Hex.HexDigitValue | src/main/java/org/orphanware/App.java:134 | each nibble is written as a lower-case hex digit that reads back as the nibble |
| Hex.NibblesCompose | src/main/java/org/orphanware/App.java:134 | a byte is 16 times its high nibble plus its low nibble |
| Hex.EncodeHex | src/main/java/org/orphanware/App.java:134 | the hex string has two characters per byte |
| Hex.EncodeHexAt | src/main/java/org/orphanware/App.java:134 | characters 2i and 2i+1 are the high and the low nibble of byte i |
| Hex.EncodeHexDigits | src/main/java/org/orphanware/App.java:134 | every character of the hex string is one of 0-9, a-f |
| Hex.DecodeEncodeHex | src/main/java/org/orphanware/App.java:134 | decoding the hex string gives back exactly the buffer |
| Hex.EncodeHexExample | src/main/java/org/orphanware/App.java:134 | the bytes 0xAB, 0xCD are written "abcd" |
| LineBreak.LinesSnoc | src/main/java/org/orphanware/App.java:145-151 | appending a character appends a break before it exactly when its index is a multiple of the row length |
| LineBreak.AddLineBreaks | src/main/java/org/orphanware/App.java:136-155 | the loop's result is the hex string cut into rows of 2 * stride characters, each preceded by a line break |
| LineBreak.RemoveBreaksLines | src/main/java/org/orphanware/App.java:136-155 | deleting the line breaks gives the hex string back |
| LineBreak.LinesLength | src/main/java/org/orphanware/App.java:136-155 | the broken string has n + ceil(n / (2 * stride)) characters for a hex string of n characters |
| LineBreak.LinesEnds | src/main/java/org/orphanware/App.java:145-151 | a non-empty result starts with a line break and ends with the last hex character: no trailing break |
| LineBreak.LinesExample | src/main/java/org/orphanware/App.java:136-155 | "ABCD" with a row of 2 characters becomes "\nAB\nCD" |
| Container.Render | src/main/java/org/orphanware/App.java:157-158 | the text starts with `~DG` and ends with the payload verbatim, at least 8 characters after the tag, commas and numbers; ParseRender reads every field back |
| Container.Decimal | src/main/java/org/orphanware/App.java:157-158 | a number is written as a non-empty string of digits with no leading zero |
| Container.DecimalRoundTrip | src/main/java/org/orphanware/App.java:157-158 | reading the digits of a number back gives the number |
| Container.SplitAtCommaFirst | src/main/java/org/orphanware/App.java:157-158 | a comma-free field followed by a comma is split off exactly |
| Container.ParseRender | src/main/java/org/orphanware/App.java:157-158 | when the name holds no comma, parsing the `~DG` text gives back the name, the byte count, the stride and the payload |
| Container.RenderExample | src/main/java/org/orphanware/App.java:157-158 | a 4-byte image of stride 2 named test with data DEADBEEF is written "~DGtest,4,2,DEADBEEF" |
| Grf.ConvertImage | src/main/java/org/orphanware/App.java:100-158 | the buffer written encodes the image (inverted under -i) and the text is its `~DG` container with the optional line breaks |
| Grf.PayloadHex | src/main/java/org/orphanware/App.java:134-155 | with or without -lb, deleting the line breaks from the payload gives the hex string |
| Grf.GrfReadBack | src/main/java/org/orphanware/App.java:100-158 | from the written text a reader recovers the name (when it holds no comma), the byte count, the stride and every byte of the buffer |
| Grf.GrfDeterministic | src/main/java/org/orphanware/App.java:100-158 | the same image and options always give the same text, with a byte count of height * stride |

## Left out

- Command-line parsing, the help text and the `System.exit` control flow of `main` and `printHelp`: argument plumbing only; `Grf.ConvertImage` takes the `-lb`, `-i` and `-o` values as parameters.
- Image decoding (`ImageIO.read`, `getRGB`) and the unpacking of the packed ARGB int: the image is given as rows of (r, g, b) channel triples in 0..255; the alpha channel is ignored, as in the source.
- Writing the `.grf` file, `getBytes()`, and the exception handlers: I/O. `Grf.ConvertImage` returns the text it would write.
- The `System.out.println` diagnostics: they do not affect the output.
- `Math.ceil` on a double: modelled as the integer `(width + 7) / 8`, equal to it for every int width.
- Java's `int` overflow of `imgHeight * rowWidthBytes` and of the pixel arithmetic: integers are unbounded, so images whose buffer size exceeds 2^31 - 1 bytes are not modelled.
- Signed bytes: bytes are `bv8`; the source's `(byte)` casts and `^= 0xFF` on signed bytes touch only the low 8 bits, so this is exact.
- `Hex.encodeHexString` belongs to commons-codec, which is not part of this model; it is modelled by `Hex.EncodeHex` with its documented lower-case alphabet.
- `Bits.InitBitMask` builds the table, but `Bitmap.SetPixel` reads the masks from `Bits.Mask`, the closed form the table is proved to hold, instead of from a shared static array.
- `Container.ParseRender`: the name is recovered only when it holds no comma; a name with a comma makes the header ambiguous, and the source does not check for it.
