/**
 * The pieces of the generic EBML layer that the SimpleBlock codec consumes:
 * bytes, the generic tag value, and the variable-size integer reader of
 * RFC 8794, section 4 (`ebml_iterable::tools::read_vint`).
 */
module EbmlTools {
  import opened Wrappers

  type byte = bv8

  /** The generic tag value. Only the binary variant matters to the Matroska block codecs. */
  datatype TagData = Binary(data: seq<byte>) | NotBinary

  /** A decoded variable-size integer: its value and the number of bytes it occupies. */
  datatype Vint = Vint(value: nat, width: nat)

  datatype ToolError = ReadVintOverflow

  function Pow2(n: nat): (r: nat)
    ensures r >= 1
  {
    if n == 0 then 1 else 2 * Pow2(n - 1)
  }

  lemma {:induction false} Pow2Add(a: nat, b: nat)
    ensures Pow2(a + b) == Pow2(a) * Pow2(b)
  {
    if a > 0 {
      Pow2Add(a - 1, b);
      assert Pow2(a + b) == 2 * Pow2(a - 1 + b);
    }
  }

  /** Unsigned big-endian value of a byte string. */
  function BigEndian(s: seq<byte>): nat
  {
    if |s| == 0 then 0 else BigEndian(s[..|s| - 1]) * 256 + s[|s| - 1] as nat
  }

  lemma Pow2Table()
    ensures Pow2(0) == 1 && Pow2(1) == 2 && Pow2(2) == 4 && Pow2(3) == 8 && Pow2(4) == 16
    ensures Pow2(5) == 32 && Pow2(6) == 64 && Pow2(7) == 128 && Pow2(8) == 256
  {
  }

  lemma MulBelow(x: nat, bound: nat, p: nat)
    requires x < bound
    ensures x * p <= (bound - 1) * p
  {
  }

  lemma {:induction false} BigEndianBound(s: seq<byte>)
    ensures BigEndian(s) < Pow2(8 * |s|)
  {
    if |s| > 0 {
      var init := s[..|s| - 1];
      var last := s[|s| - 1] as nat;
      BigEndianBound(init);
      Pow2Add(8 * |init|, 8);
      Pow2Table();
      var p := Pow2(8 * |init|);
      MulBelow(BigEndian(init), p, 256);
      assert BigEndian(s) == BigEndian(init) * 256 + last;
      assert last < 256;
      assert Pow2(8 * |s|) == p * 256;
    }
  }

  /**
   * Width of a variable-size integer from its first byte: the number of
   * leading zero bits plus one, with the VINT_MARKER bit as the first set bit.
   */
  function VintWidth(first: byte): (w: nat)
    requires first != 0
    ensures 1 <= w <= 8
    ensures Pow2(8 - w) <= first as nat < Pow2(9 - w)
  {
    Pow2Table();
    if first >= 0x80 then 1
    else if first >= 0x40 then 2
    else if first >= 0x20 then 3
    else if first >= 0x10 then 4
    else if first >= 0x08 then 5
    else if first >= 0x04 then 6
    else if first >= 0x02 then 7
    else 8
  }

  /**
   * VINT_DATA of an encoded integer: the bits of its first byte below the
   * marker, followed big-endian by the bits of its remaining bytes.
   */
  function VintData(encoded: seq<byte>): nat
    requires |encoded| >= 1 && encoded[0] != 0 && |encoded| == VintWidth(encoded[0])
  {
    var width := |encoded|;
    (encoded[0] as nat - Pow2(8 - width)) * Pow2(8 * (width - 1)) + BigEndian(encoded[1..])
  }

  /**
   * Reads one variable-size integer at the start of `buffer`. An empty buffer
   * or one shorter than the declared width gives `Ok(None)`; a first byte of
   * zero (a width beyond eight) gives an error.
   */
  function ReadVint(buffer: seq<byte>): (r: Result<Option<Vint>, ToolError>)
    ensures r.Err? <==> |buffer| > 0 && buffer[0] == 0
    ensures r == Ok(None) <==> |buffer| == 0 || (buffer[0] != 0 && |buffer| < VintWidth(buffer[0]))
    ensures r.Ok? && r.value.Some? ==>
              1 <= r.value.value.width <= 8 && r.value.value.width <= |buffer|
              && r.value.value.width == VintWidth(buffer[0])
  {
    if |buffer| == 0 then Ok(None)
    else if buffer[0] == 0 then Err(ReadVintOverflow)
    else
      var width := VintWidth(buffer[0]);
      if |buffer| < width then Ok(None)
      else
        Ok(Some(Vint(VintData(buffer[..width]), width)))
  }

  /** True when `ReadVint` yields a value: neither an error nor `None`. */
  predicate Readable(buffer: seq<byte>)
  {
    ReadVint(buffer).Ok? && ReadVint(buffer).value.Some?
  }

  /** The width of the leading variable-size integer of a readable buffer. */
  function LeadingWidth(buffer: seq<byte>): (w: nat)
    requires Readable(buffer)
    ensures 1 <= w <= 8 && w <= |buffer|
  {
    ReadVint(buffer).value.value.width
  }

  lemma MulAddBelow(hi: nat, m: nat, lo: nat, p: nat)
    requires hi < m && lo < p
    ensures hi * p + lo < m * p
  {
    MulBelow(hi, m, p);
    assert (m - 1) * p == m * p - p;
  }

  /** VINT_DATA carries exactly 7 bits per byte of width. */
  lemma VintDataBound(encoded: seq<byte>)
    requires |encoded| >= 1 && encoded[0] != 0 && |encoded| == VintWidth(encoded[0])
    ensures VintData(encoded) < Pow2(7 * |encoded|)
  {
    var w := |encoded|;
    var m := Pow2(8 - w);
    var p := Pow2(8 * (w - 1));
    BigEndianBound(encoded[1..]);
    Pow2Add(8 - w, 1);
    MulAddBelow(encoded[0] as nat - m, m, BigEndian(encoded[1..]), p);
    Pow2Add(8 - w, 8 * (w - 1));
    assert 8 - w + 8 * (w - 1) == 7 * w;
  }

  /** The value read has exactly 7 bits of VINT_DATA per byte of width. */
  lemma ReadVintValueBound(buffer: seq<byte>)
    requires Readable(buffer)
    ensures ReadVint(buffer).value.value.value < Pow2(7 * LeadingWidth(buffer))
  {
    VintDataBound(buffer[..LeadingWidth(buffer)]);
  }

  /** Reading a variable-size integer looks at no byte past its width. */
  lemma ReadVintPrefix(a: seq<byte>, b: seq<byte>)
    requires Readable(a)
    requires LeadingWidth(a) <= |b| && a[..LeadingWidth(a)] == b[..LeadingWidth(a)]
    ensures ReadVint(b) == ReadVint(a)
  {
    var w := LeadingWidth(a);
    assert a[0] == a[..w][0] == b[..w][0] == b[0];
  }
}
