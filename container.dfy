/** The `~DG` container text: a header of name, byte count and row stride,
    then the hex payload. Parse is a reader of the container text: it reads
    the header fields back. */
module Container {
  import opened Options

  /** The fields of one container document. */
  datatype Document = Document(name: string, byteLength: nat, rowStride: nat, payload: string)

  predicate IsDigit(c: char)
  {
    '0' <= c <= '9'
  }

  function DigitChar(d: nat): (c: char)
    requires d < 10
    ensures IsDigit(c)
  {
    ('0' as int + d) as char
  }

  /** Decimal text of a non-negative int, as Java's string concatenation
      writes it: digits only, most significant first, no leading zero. */
  function Decimal(n: nat): (r: string)
    ensures |r| > 0 && forall i :: 0 <= i < |r| ==> IsDigit(r[i])
    ensures r[0] == '0' ==> n == 0
  {
    if n < 10 then [DigitChar(n)]
    else Decimal(n / 10) + [DigitChar(n % 10)]
  }

  /** The value of a string of decimal digits. */
  function DecimalValue(s: string): nat
    requires forall i :: 0 <= i < |s| ==> IsDigit(s[i])
  {
    if |s| == 0 then 0
    else
      assert IsDigit(s[|s| - 1]);
      10 * DecimalValue(s[..|s| - 1]) + (s[|s| - 1] as int - '0' as int)
  }

  /** Reading the decimal text back gives the number. */
  lemma {:induction false} DecimalRoundTrip(n: nat)
    ensures DecimalValue(Decimal(n)) == n
  {
    if n >= 10 {
      var r := Decimal(n);
      DecimalRoundTrip(n / 10);
      assert r[..|r| - 1] == Decimal(n / 10);
    }
  }

  /** The container text: `~DG`, the name, `,`, the byte count, `,`, the
      row stride, `,`, and the payload verbatim, with no terminator. */
  function Render(doc: Document): (r: string)
    ensures "~DG" <= r
    ensures |r| >= |doc.payload| + 8 && r[|r| - |doc.payload|..] == doc.payload
  {
    "~DG" + doc.name + "," + Decimal(doc.byteLength) + "," + Decimal(doc.rowStride) + "," + doc.payload
  }

  /** The text before the first comma and the text after it. */
  function SplitAtComma(s: string): (r: Option<(string, string)>)
    ensures r.Some? ==> s == r.value.0 + "," + r.value.1 && ',' !in r.value.0
  {
    if |s| == 0 then None
    else if s[0] == ',' then Some(("", s[1..]))
    else
      match SplitAtComma(s[1..])
      case None => None
      case Some((a, b)) => Some(([s[0]] + a, b))
  }

  lemma {:induction false} SplitAtCommaFirst(a: string, b: string)
    requires ',' !in a
    ensures SplitAtComma(a + "," + b) == Some((a, b))
  {
    if |a| > 0 {
      assert a[0] in a && ',' !in a[1..];
      assert (a + "," + b)[0] == a[0] && (a + "," + b)[1..] == a[1..] + "," + b;
      SplitAtCommaFirst(a[1..], b);
      assert [a[0]] + a[1..] == a;
    } else {
      assert a + "," + b == "," + b;
    }
  }

  /** A field of the header that must be a number. */
  function NumberField(s: string): Option<nat>
  {
    if |s| > 0 && forall i :: 0 <= i < |s| ==> IsDigit(s[i]) then Some(DecimalValue(s)) else None
  }

  /** Reads a container text back into its fields. The name is taken up to
      the first comma, so it is recovered only when it holds no comma. */
  function Parse(t: string): Option<Document>
  {
    if |t| < 3 || t[..3] != "~DG" then None
    else
      match SplitAtComma(t[3..])
      case None => None
      case Some((name, rest1)) =>
        match SplitAtComma(rest1)
        case None => None
        case Some((len, rest2)) =>
          match SplitAtComma(rest2)
          case None => None
          case Some((stride, payload)) =>
            match (NumberField(len), NumberField(stride))
            case (Some(l), Some(w)) => Some(Document(name, l, w, payload))
            case _ => None
  }

  lemma DecimalField(n: nat)
    ensures ',' !in Decimal(n) && NumberField(Decimal(n)) == Some(n)
  {
    DecimalRoundTrip(n);
  }

  /** Every field of a document whose name holds no comma can be read back
      from its container text. */
  lemma ParseRender(doc: Document)
    requires ',' !in doc.name
    ensures Parse(Render(doc)) == Some(doc)
  {
    var len, stride := Decimal(doc.byteLength), Decimal(doc.rowStride);
    var tail2 := stride + "," + doc.payload;
    var tail1 := len + "," + tail2;
    RenderFields(doc, tail1);
    DecimalField(doc.byteLength);
    DecimalField(doc.rowStride);
    SplitAtCommaFirst(doc.name, tail1);
    SplitAtCommaFirst(len, tail2);
    SplitAtCommaFirst(stride, doc.payload);
  }

  /** After the `~DG` tag come the name, a comma and the other fields. */
  lemma RenderFields(doc: Document, tail1: string)
    requires tail1 == Decimal(doc.byteLength) + "," + (Decimal(doc.rowStride) + "," + doc.payload)
    ensures Render(doc)[3..] == doc.name + "," + tail1
  {
    assert Render(doc) == "~DG" + (doc.name + "," + tail1);
  }

  /** The header of a 4-byte image with a 2-byte row stride named "test". */
  lemma RenderExample()
    ensures Render(Document("test", 4, 2, "DEADBEEF")) == "~DGtest,4,2,DEADBEEF"
  {
  }
}
