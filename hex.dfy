/** Hex serialisation of the byte buffer, as commons-codec's
    `Hex.encodeHexString` does it: two lower-case digits per byte, high
    nibble first. DecodeHex, the inverse of EncodeHex, recovers the bytes. */
module Hex {
  import opened Options

  /** The characters `Hex.encodeHexString` writes: 0-9 and a-f. */
  predicate IsLowerHexDigit(c: char)
  {
    '0' <= c <= '9' || 'a' <= c <= 'f'
  }

  /** The lower-case hex digit of a nibble (the alphabet 0123456789abcdef). */
  function HexDigit(d: nat): (c: char)
    requires d < 16
  {
    if d < 10 then ('0' as int + d) as char else ('a' as int + d - 10) as char
  }

  /** Each digit is a lower-case hex digit and reads back as its own value. */
  lemma HexDigitValue(d: nat)
    requires d < 16
    ensures IsLowerHexDigit(HexDigit(d)) && DigitValue(HexDigit(d)) == Some(d)
  {
  }

  /** The high and the low four bits of a byte, as numbers. */
  function HighNibble(b: bv8): (n: nat)
    ensures n < 16
  {
    b as int / 16
  }

  function LowNibble(b: bv8): (n: nat)
    ensures n < 16
  {
    b as int % 16
  }

  /** The byte is 16 times its high nibble plus its low nibble. */
  lemma NibblesCompose(b: bv8)
    ensures 16 * HighNibble(b) + LowNibble(b) == b as nat
  {
  }

  /** The byte values of a buffer, as numbers. */
  function Values(bytes: seq<bv8>): (v: seq<nat>)
    ensures |v| == |bytes|
    ensures forall i :: 0 <= i < |v| ==> v[i] == bytes[i] as nat && v[i] < 256
  {
    seq(|bytes|, i requires 0 <= i < |bytes| => bytes[i] as nat)
  }

  /** `Hex.encodeHexString`: two digits per byte, high nibble first. */
  function EncodeHex(bytes: seq<bv8>): (r: string)
    ensures |r| == 2 * |bytes|
  {
    if |bytes| == 0 then []
    else [HexDigit(HighNibble(bytes[0])), HexDigit(LowNibble(bytes[0]))] + EncodeHex(bytes[1..])
  }

  /** Characters 2i and 2i+1 of the serialised buffer are the high and the
      low nibble of byte i. */
  lemma {:induction false} EncodeHexAt(bytes: seq<bv8>, i: nat)
    requires i < |bytes|
    ensures EncodeHex(bytes)[2 * i] == HexDigit(HighNibble(bytes[i]))
    ensures EncodeHex(bytes)[2 * i + 1] == HexDigit(LowNibble(bytes[i]))
  {
    if i > 0 {
      EncodeHexAt(bytes[1..], i - 1);
    }
  }

  /** Every character of the serialised buffer is a lower-case hex digit;
      in particular it holds no line break. */
  lemma EncodeHexDigits(bytes: seq<bv8>)
    ensures forall c :: c in EncodeHex(bytes) ==> IsLowerHexDigit(c)
  {
    var r := EncodeHex(bytes);
    forall c | c in r
      ensures IsLowerHexDigit(c)
    {
      var j :| 0 <= j < |r| && r[j] == c;
      EncodeHexAt(bytes, j / 2);
      HexDigitValue(HighNibble(bytes[j / 2]));
      HexDigitValue(LowNibble(bytes[j / 2]));
    }
  }

  /** Value of a hex digit, either case (as the decoder accepts both). */
  function DigitValue(c: char): (v: Option<nat>)
    ensures v.Some? ==> v.value < 16
  {
    if '0' <= c <= '9' then Some(c as int - '0' as int)
    else if 'a' <= c <= 'f' then Some(c as int - 'a' as int + 10)
    else if 'A' <= c <= 'F' then Some(c as int - 'A' as int + 10)
    else None
  }

  /** The byte values spelt by a string of hex digit pairs: None for an
      odd length or a non-hex character. */
  function DecodeValues(s: string): (r: Option<seq<nat>>)
    ensures r.Some? ==> 2 * |r.value| == |s| && forall i :: 0 <= i < |r.value| ==> r.value[i] < 256
    decreases |s|
  {
    if |s| == 0 then Some([])
    else if |s| == 1 then None
    else
      var hi, lo, rest := DigitValue(s[0]), DigitValue(s[1]), DecodeValues(s[2..]);
      if hi.Some? && lo.Some? && rest.Some? then Some([16 * hi.value + lo.value] + rest.value)
      else None
  }

  /** A decoder for ASCII hex digit pairs, either case: None for an odd
      length or a non-hex character. It is the inverse of EncodeHex. */
  function DecodeHex(s: string): (r: Option<seq<bv8>>)
    ensures r.Some? ==> 2 * |r.value| == |s|
  {
    match DecodeValues(s)
    case None => None
    case Some(v) => Some(seq(|v|, i requires 0 <= i < |v| => v[i] as bv8))
  }

  /** Decoding the serialised buffer gives the buffer back. */
  lemma DecodeEncodeHex(bytes: seq<bv8>)
    ensures DecodeHex(EncodeHex(bytes)) == Some(bytes)
  {
    DecodeEncodeValues(bytes);
    var v := Values(bytes);
    assert seq(|v|, i requires 0 <= i < |v| => v[i] as bv8) == bytes;
  }

  lemma {:induction false} DecodeEncodeValues(bytes: seq<bv8>)
    ensures DecodeValues(EncodeHex(bytes)) == Some(Values(bytes))
  {
    if |bytes| > 0 {
      var hi, lo := HighNibble(bytes[0]), LowNibble(bytes[0]);
      DecodeEncodeValues(bytes[1..]);
      EncodeHexHead(bytes);
      HexDigitValue(hi);
      HexDigitValue(lo);
      DecodeValuesPair(EncodeHex(bytes), hi, lo, Values(bytes[1..]));
      NibblesCompose(bytes[0]);
      ValuesCons(bytes);
    }
  }

  /** A pair of digits in front of a decodable string decodes to one more
      value. */
  lemma DecodeValuesPair(s: string, hi: nat, lo: nat, rest: seq<nat>)
    requires |s| >= 2 && DigitValue(s[0]) == Some(hi) && DigitValue(s[1]) == Some(lo)
    requires DecodeValues(s[2..]) == Some(rest)
    ensures DecodeValues(s) == Some([16 * hi + lo] + rest)
  {
  }

  lemma ValuesCons(bytes: seq<bv8>)
    requires |bytes| > 0
    ensures Values(bytes) == [bytes[0] as nat] + Values(bytes[1..])
  {
  }

  lemma EncodeHexHead(bytes: seq<bv8>)
    requires |bytes| > 0
    ensures var s := EncodeHex(bytes);
            s[0] == HexDigit(HighNibble(bytes[0])) && s[1] == HexDigit(LowNibble(bytes[0])) &&
            s[2..] == EncodeHex(bytes[1..])
  {
  }

  /** The bytes 0xAB, 0xCD are written "abcd": lower case, high nibble first. */
  lemma EncodeHexExample()
    ensures EncodeHex([0xAB, 0xCD]) == "abcd"
  {
  }
}
