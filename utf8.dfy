/** UTF-8 as Python's `str.encode('utf-8')` and strict `bytes.decode('utf-8')`
    see it: a character is a Unicode scalar value, encoded in one to four
    bytes; decoding refuses overlong forms, surrogates, values above U+10FFFF
    and truncated sequences. */
module Utf8 {
  import opened WireBytes

  predicate IsScalar(cp: int) {
    (0 <= cp < 0xD800) || (0xE000 <= cp < 0x11_0000)
  }

  predicate IsContinuation(b: Byte) {
    0x80 <= b < 0xC0
  }

  /** The bytes of one character. */
  function EncodeChar(c: char): (r: seq<Byte>)
    ensures 1 <= |r| <= 4
    ensures |r| == 1 <==> (c as int) < 0x80
  {
    var cp := c as int;
    if cp < 0x80 then [cp]
    else if cp < 0x800 then [0xC0 + cp / 64, 0x80 + cp % 64]
    else if cp < 0x1_0000 then [0xE0 + cp / 4096, 0x80 + (cp / 64) % 64, 0x80 + cp % 64]
    else [0xF0 + cp / 262144, 0x80 + (cp / 4096) % 64, 0x80 + (cp / 64) % 64, 0x80 + cp % 64]
  }

  /** `s.encode('utf-8')`. */
  function Encode(s: string): (r: seq<Byte>)
    ensures |r| >= |s|
  {
    if s == [] then [] else EncodeChar(s[0]) + Encode(s[1..])
  }

  /** Decodes the character at the head of `s`, with the number of bytes it
      takes; None where the head is not a well-formed UTF-8 sequence. */
  function DecodeChar(s: seq<Byte>): (r: Option<(char, nat)>)
    requires |s| > 0
    ensures r.Some? ==> 1 <= r.value.1 <= |s|
  {
    var b0: int := s[0];
    if b0 < 0x80 then Some((b0 as char, 1))
    else if 0xC2 <= b0 < 0xE0 then
      if |s| < 2 || !IsContinuation(s[1]) then None
      else
        var cp: int := (b0 - 0xC0) * 64 + (s[1] as int - 0x80);
        Some((cp as char, 2))
    else if 0xE0 <= b0 < 0xF0 then
      if |s| < 3 || !IsContinuation(s[1]) || !IsContinuation(s[2]) then None
      else
        var cp: int := (b0 - 0xE0) * 4096 + (s[1] as int - 0x80) * 64 + (s[2] as int - 0x80);
        if cp < 0x800 || !IsScalar(cp) then None else Some((cp as char, 3))
    else if 0xF0 <= b0 < 0xF5 then
      if |s| < 4 || !IsContinuation(s[1]) || !IsContinuation(s[2]) || !IsContinuation(s[3]) then None
      else
        var cp: int := (b0 - 0xF0) * 262144 + (s[1] as int - 0x80) * 4096 + (s[2] as int - 0x80) * 64 + (s[3] as int - 0x80);
        if cp < 0x1_0000 || !IsScalar(cp) then None else Some((cp as char, 4))
    else None
  }

  /** `b.decode('utf-8')`: None where Python raises UnicodeDecodeError. */
  function Decode(b: seq<Byte>): (r: Option<string>)
    decreases |b|
  {
    if b == [] then Some([])
    else
      match DecodeChar(b)
      case None => None
      case Some((c, n)) =>
        match Decode(b[n..])
        case None => None
        case Some(rest) => Some([c] + rest)
  }

  lemma DecodeEncodeChar(c: char, rest: seq<Byte>)
    ensures DecodeChar(EncodeChar(c) + rest) == Some((c, |EncodeChar(c)|))
  {
    var cp := c as int;
    if cp < 0x80 {
    } else if cp < 0x800 {
      DecodeEncodeChar2(c, rest);
    } else if cp < 0x1_0000 {
      DecodeEncodeChar3(c, rest);
    } else {
      DecodeEncodeChar4(c, rest);
    }
  }

  lemma DecodeEncodeChar2(c: char, rest: seq<Byte>)
    requires 0x80 <= c as int < 0x800
    ensures DecodeChar(EncodeChar(c) + rest) == Some((c, 2))
  {
    var cp := c as int;
    assert (cp / 64) * 64 + cp % 64 == cp;
  }

  lemma DecodeEncodeChar3(c: char, rest: seq<Byte>)
    requires 0x800 <= c as int < 0x1_0000
    ensures DecodeChar(EncodeChar(c) + rest) == Some((c, 3))
  {
    var cp := c as int;
    assert (cp / 4096) * 4096 + ((cp / 64) % 64) * 64 + cp % 64 == cp;
  }

  lemma DecodeEncodeChar4(c: char, rest: seq<Byte>)
    requires 0x1_0000 <= c as int
    ensures DecodeChar(EncodeChar(c) + rest) == Some((c, 4))
  {
    var cp := c as int;
    var q := cp / 64;
    assert q * 64 + cp % 64 == cp;
    var q2 := q / 64;
    assert q2 * 64 + q % 64 == q;
    assert q2 == cp / 4096;
    assert q2 / 64 == cp / 262144 && q2 % 64 == (cp / 4096) % 64;
    assert (q2 / 64) * 64 + q2 % 64 == q2;
  }

  /** Decoding an encoding gives back the string. */
  lemma {:induction false} DecodeEncode(s: string)
    ensures Decode(Encode(s)) == Some(s)
  {
    if s != [] {
      var head := EncodeChar(s[0]);
      var tail := Encode(s[1..]);
      DecodeEncodeChar(s[0], tail);
      assert (head + tail)[|head|..] == tail;
      DecodeEncode(s[1..]);
      assert s == [s[0]] + s[1..];
    }
  }

  lemma DivMod64(q: int, r: int)
    requires 0 <= r < 64
    ensures (q * 64 + r) / 64 == q && (q * 64 + r) % 64 == r
  {
  }

  lemma DivMod4096(q: int, r: int)
    requires 0 <= r < 4096
    ensures (q * 4096 + r) / 4096 == q && (q * 4096 + r) % 4096 == r
  {
  }

  lemma EncodeDecodeChar2(b: seq<Byte>)
    requires |b| >= 2 && 0xC2 <= b[0] < 0xE0 && IsContinuation(b[1])
    ensures EncodeChar(DecodeChar(b).value.0) == b[..2]
  {
    DivMod64(b[0] as int - 0xC0, b[1] as int - 0x80);
  }

  lemma EncodeDecodeChar3(b: seq<Byte>)
    requires |b| >= 3 && 0xE0 <= b[0] < 0xF0 && DecodeChar(b).Some?
    ensures EncodeChar(DecodeChar(b).value.0) == b[..3]
  {
    var lo: int := (b[1] as int - 0x80) * 64 + (b[2] as int - 0x80);
    var cp: int := (b[0] as int - 0xE0) * 4096 + lo;
    DivMod4096(b[0] as int - 0xE0, lo);
    DivMod64(b[1] as int - 0x80, b[2] as int - 0x80);
    DivMod64((b[0] as int - 0xE0) * 64 + (b[1] as int - 0x80), b[2] as int - 0x80);
    assert cp == ((b[0] as int - 0xE0) * 64 + (b[1] as int - 0x80)) * 64 + (b[2] as int - 0x80);
    DivMod64(b[0] as int - 0xE0, b[1] as int - 0x80);
  }

  lemma EncodeDecodeChar4(b: seq<Byte>)
    requires |b| >= 4 && 0xF0 <= b[0] < 0xF5 && DecodeChar(b).Some?
    ensures EncodeChar(DecodeChar(b).value.0) == b[..4]
  {
    var x0: int := b[0] as int - 0xF0;
    var x1: int := b[1] as int - 0x80;
    var x2: int := b[2] as int - 0x80;
    var x3: int := b[3] as int - 0x80;
    var cp: int := x0 * 262144 + x1 * 4096 + x2 * 64 + x3;
    assert cp == ((x0 * 64 + x1) * 64 + x2) * 64 + x3;
    DivMod64((x0 * 64 + x1) * 64 + x2, x3);
    DivMod64(x0 * 64 + x1, x2);
    DivMod64(x0, x1);
    assert cp / 64 == (x0 * 64 + x1) * 64 + x2;
    assert cp / 4096 == (cp / 64) / 64;
    assert cp / 262144 == (cp / 4096) / 64;
  }

  lemma EncodeDecodeChar(b: seq<Byte>)
    requires |b| > 0 && DecodeChar(b).Some?
    ensures EncodeChar(DecodeChar(b).value.0) == b[..DecodeChar(b).value.1]
  {
    if 0xC2 <= b[0] < 0xE0 {
      EncodeDecodeChar2(b);
    } else if 0xE0 <= b[0] < 0xF0 {
      EncodeDecodeChar3(b);
    } else if 0xF0 <= b[0] < 0xF5 {
      EncodeDecodeChar4(b);
    }
  }

  /** Whatever decodes re-encodes to the same bytes: the codec is a bijection
      between strings and well-formed UTF-8. */
  lemma {:induction false} EncodeDecode(b: seq<Byte>)
    requires Decode(b).Some?
    ensures Encode(Decode(b).value) == b
    decreases |b|
  {
    if b != [] {
      var n := DecodeChar(b).value.1;
      EncodeDecodeChar(b);
      EncodeDecode(b[n..]);
      var s := Decode(b).value;
      assert s[1..] == Decode(b[n..]).value;
      assert b == b[..n] + b[n..];
    }
  }

  /** The byte length equals the character count exactly when every
      character is ASCII. */
  lemma {:induction false} EncodeLengthAscii(s: string)
    ensures |Encode(s)| == |s| <==> forall i :: 0 <= i < |s| ==> (s[i] as int) < 0x80
  {
    if s != [] {
      EncodeLengthAscii(s[1..]);
      assert forall i :: 1 <= i < |s| ==> s[i] == s[1..][i - 1];
    }
  }
}
