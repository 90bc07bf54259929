/** Bytes, optional values and fixed-width unsigned integer codecs shared by
    every wire format of the frame transport. */
module WireBytes {

  /** One octet on the wire. */
  type Byte = b: int | 0 <= b < 256

  datatype Option<T> = None | Some(value: T)

  function Min(a: int, b: int): int { if a <= b then a else b }

  /** 256^n: the number of values an n-byte unsigned field can hold. */
  function Pow256(n: nat): (r: nat)
    ensures r > 0
  {
    if n == 0 then 1 else 256 * Pow256(n - 1)
  }

  lemma Pow256Widths()
    ensures Pow256(4) == 0x1_0000_0000
    ensures Pow256(8) == 0x1_0000_0000_0000_0000
  {
  }

  /** The IEEE-754 bit pattern of a float64 timestamp, kept opaque. */
  type U64 = n: nat | n < 0x1_0000_0000_0000_0000

  lemma DivBound(n: nat, w: nat)
    requires w > 0 && n < Pow256(w)
    ensures n / 256 < Pow256(w - 1)
  {
    assert Pow256(w) == 256 * Pow256(w - 1);
  }

  /** Big-endian encoding of n in exactly `width` bytes (struct format with '!'). */
  function EncodeBE(n: nat, width: nat): (r: seq<Byte>)
    requires n < Pow256(width)
    ensures |r| == width
  {
    if width == 0 then []
    else
      DivBound(n, width);
      EncodeBE(n / 256, width - 1) + [n % 256]
  }

  /** The unsigned value of a big-endian byte string. */
  function DecodeBE(s: seq<Byte>): (r: nat)
    ensures r < Pow256(|s|)
  {
    if s == [] then 0 else DecodeBE(s[..|s| - 1]) * 256 + s[|s| - 1]
  }

  /** Little-endian encoding of n in exactly `width` bytes (native order on
      the little-endian hosts the single-packet path runs on). */
  function EncodeLE(n: nat, width: nat): (r: seq<Byte>)
    requires n < Pow256(width)
    ensures |r| == width
  {
    if width == 0 then []
    else
      DivBound(n, width);
      [n % 256] + EncodeLE(n / 256, width - 1)
  }

  /** The unsigned value of a little-endian byte string. */
  function DecodeLE(s: seq<Byte>): (r: nat)
    ensures r < Pow256(|s|)
  {
    if s == [] then 0 else s[0] + 256 * DecodeLE(s[1..])
  }

  lemma {:induction false} DecodeEncodeBE(n: nat, width: nat)
    requires n < Pow256(width)
    ensures DecodeBE(EncodeBE(n, width)) == n
  {
    if width > 0 {
      DivBound(n, width);
      var e := EncodeBE(n, width);
      assert e[..width - 1] == EncodeBE(n / 256, width - 1);
      DecodeEncodeBE(n / 256, width - 1);
    }
  }

  lemma {:induction false} EncodeDecodeBE(s: seq<Byte>)
    ensures EncodeBE(DecodeBE(s), |s|) == s
  {
    if s != [] {
      var init := s[..|s| - 1];
      EncodeDecodeBE(init);
      var n := DecodeBE(s);
      assert n / 256 == DecodeBE(init) && n % 256 == s[|s| - 1];
      assert s == init + [s[|s| - 1]];
    }
  }

  lemma {:induction false} DecodeEncodeLE(n: nat, width: nat)
    requires n < Pow256(width)
    ensures DecodeLE(EncodeLE(n, width)) == n
  {
    if width > 0 {
      DivBound(n, width);
      var e := EncodeLE(n, width);
      assert e[1..] == EncodeLE(n / 256, width - 1);
      DecodeEncodeLE(n / 256, width - 1);
    }
  }

  lemma {:induction false} EncodeDecodeLE(s: seq<Byte>)
    ensures EncodeLE(DecodeLE(s), |s|) == s
  {
    if s != [] {
      EncodeDecodeLE(s[1..]);
      var n := DecodeLE(s);
      assert n / 256 == DecodeLE(s[1..]) && n % 256 == s[0];
      assert s == [s[0]] + s[1..];
    }
  }

  /** Little-endian fields of equal width that decode to the same value are
      the same bytes. */
  lemma DecodeLEInjective(a: seq<Byte>, b: seq<Byte>)
    requires |a| == |b| && DecodeLE(a) == DecodeLE(b)
    ensures a == b
  {
    EncodeDecodeLE(a);
    EncodeDecodeLE(b);
  }
}
