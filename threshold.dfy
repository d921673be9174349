/** The source image as the encoder sees it, and the thresholder that turns
    one colour pixel into a light/dark bit. */
module Threshold {

  /** One colour component, as unpacked from the ARGB int with `& 0xff`. */
  type Channel = c: int | 0 <= c <= 255

  datatype Rgb = Rgb(r: Channel, g: Channel, b: Channel)

  /** A decoded image: `rgb[y][x]` is the pixel at column x of row y.
      Width and height are positive, as for every decoded image. */
  datatype Image = Image(width: nat, height: nat, rgb: seq<seq<Rgb>>) {
    ghost predicate Valid() {
      width > 0 && height > 0 && |rgb| == height &&
      forall y :: 0 <= y < height ==> |rgb[y]| == width
    }
  }

  /** Grey level of a pixel: the sum of the three components divided by 3.
      The sum is never negative, so the truncating division of the source
      and Dafny's division agree. */
  function Gray(p: Rgb): (g: int)
    ensures 0 <= g <= 255
    ensures 3 * g <= p.r + p.g + p.b < 3 * g + 3
  {
    (p.r + p.g + p.b) / 3
  }

  /** The thresholder: a pixel is light (bit 1 before inversion) when its
      grey level is at least 127, which happens exactly when the three
      components sum to 381 or more. */
  predicate IsLight(p: Rgb)
    ensures IsLight(p) <==> p.r + p.g + p.b >= 381
  {
    Gray(p) >= 127
  }

  /** The boundary of the threshold: grey 126 is dark, grey 127 is light,
      and the truncation means a sum of 380 is still dark. */
  lemma ThresholdBoundary()
    ensures !IsLight(Rgb(126, 126, 126))
    ensures IsLight(Rgb(127, 127, 127))
    ensures !IsLight(Rgb(127, 127, 126)) && Gray(Rgb(127, 127, 126)) == 126
  {
  }
}
