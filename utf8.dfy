/** Python's `bytes(s, 'utf-8')`: the UTF-8 encoding of a string. A Dafny
    `char` is a Unicode scalar value, so every string here is encodable. */
module Utf8 {
  import opened Results
  import opened Bytes

  /** The length of the UTF-8 sequence a lead byte announces; 0 for a byte
      that cannot start a sequence. */
  function SequenceLength(lead: byte): nat
  {
    if lead < 0x80 then 1
    else if 0xC0 <= lead < 0xE0 then 2
    else if 0xE0 <= lead < 0xF0 then 3
    else if 0xF0 <= lead < 0xF8 then 4
    else 0
  }

  /** A byte that continues a sequence: 10xxxxxx. */
  predicate IsContinuation(b: byte)
  {
    0x80 <= b < 0xC0
  }

  /** The code point carried by one complete UTF-8 sequence. */
  function DecodeScalar(b: seq<byte>): int
    requires 1 <= |b| <= 4
  {
    if |b| == 1 then b[0] as int
    else if |b| == 2 then (b[0] as int - 0xC0) * 0x40 + (b[1] as int - 0x80)
    else if |b| == 3 then
      (b[0] as int - 0xE0) * 0x1000 + (b[1] as int - 0x80) * 0x40 + (b[2] as int - 0x80)
    else
      (b[0] as int - 0xF0) * 0x40000 + (b[1] as int - 0x80) * 0x1000
      + (b[2] as int - 0x80) * 0x40 + (b[3] as int - 0x80)
  }

  /** The two-byte form, for code points 0x80 through 0x7FF. */
  function TwoByteForm(cp: int): (r: seq<byte>)
    requires 0x80 <= cp < 0x800
    ensures |r| == 2 && SequenceLength(r[0]) == 2 && DecodeScalar(r) == cp
    ensures IsContinuation(r[1])
  {
    var hi, lo := cp / 0x40, cp % 0x40;
    assert cp == hi * 0x40 + lo;
    [(0xC0 + hi) as byte, (0x80 + lo) as byte]
  }

  /** The three-byte form, for code points 0x800 through 0xFFFF. */
  function ThreeByteForm(cp: int): (r: seq<byte>)
    requires 0x800 <= cp < 0x1_0000
    ensures |r| == 3 && SequenceLength(r[0]) == 3 && DecodeScalar(r) == cp
    ensures IsContinuation(r[1]) && IsContinuation(r[2])
  {
    var hi, rest := cp / 0x1000, cp % 0x1000;
    var mid, lo := rest / 0x40, rest % 0x40;
    assert cp == hi * 0x1000 + mid * 0x40 + lo;
    [(0xE0 + hi) as byte, (0x80 + mid) as byte, (0x80 + lo) as byte]
  }

  /** The four-byte form, for code points 0x10000 through 0x10FFFF. */
  function FourByteForm(cp: int): (r: seq<byte>)
    requires 0x1_0000 <= cp < 0x11_0000
    ensures |r| == 4 && SequenceLength(r[0]) == 4 && DecodeScalar(r) == cp
    ensures IsContinuation(r[1]) && IsContinuation(r[2]) && IsContinuation(r[3])
  {
    var hi, rest := cp / 0x4_0000, cp % 0x4_0000;
    var upper, rest' := rest / 0x1000, rest % 0x1000;
    var mid, lo := rest' / 0x40, rest' % 0x40;
    assert cp == hi * 0x4_0000 + upper * 0x1000 + mid * 0x40 + lo;
    [(0xF0 + hi) as byte, (0x80 + upper) as byte, (0x80 + mid) as byte, (0x80 + lo) as byte]
  }

  /** The UTF-8 sequence of one scalar value, in its shortest form: one byte
      below 0x80, two below 0x800, three below 0x10000, four above; the lead
      byte announces the length, the other bytes are continuation bytes, and
      the sequence decodes back to the same code point. */
  function EncodeChar(c: char): (r: seq<byte>)
    ensures 1 <= |r| <= 4
    ensures SequenceLength(r[0]) == |r|
    ensures forall k | 1 <= k < |r| :: IsContinuation(r[k])
    ensures DecodeScalar(r) == c as int
    ensures (|r| == 1) == (c as int < 0x80)
    ensures (|r| == 2) == (0x80 <= c as int < 0x800)
    ensures (|r| == 3) == (0x800 <= c as int < 0x1_0000)
  {
    var cp := c as int;
    if cp < 0x80 then [cp as byte]
    else if cp < 0x800 then TwoByteForm(cp)
    else if cp < 0x1_0000 then ThreeByteForm(cp)
    else FourByteForm(cp)
  }

  /** `bytes(s, 'utf-8')`: the encodings of the characters, in order. */
  function Encode(s: string): (r: seq<byte>)
    ensures |r| >= |s|
  {
    if s == [] then [] else EncodeChar(s[0]) + Encode(s[1..])
  }

  /** Whether a code point is a Unicode scalar value, i.e. a Dafny `char`. */
  predicate IsScalarValue(cp: int)
  {
    0 <= cp < 0xD800 || 0xE000 <= cp < 0x11_0000
  }

  /** Reads a byte string back as the string whose UTF-8 encoding it is;
      `None` when a sequence is cut short, starts with a byte that cannot
      lead, or carries no scalar value. */
  function Decode(b: seq<byte>): Option<string>
    decreases |b|
  {
    if b == [] then Some([])
    else
      var n := SequenceLength(b[0]);
      if n == 0 || |b| < n then None
      else
        var cp := DecodeScalar(b[..n]);
        if !IsScalarValue(cp) then None
        else
          match Decode(b[n..])
          case None => None
          case Some(rest) => Some([cp as char] + rest)
  }

  /** Decoding undoes encoding. */
  lemma {:induction false} DecodeEncode(s: string)
    ensures Decode(Encode(s)) == Some(s)
  {
    if s != [] {
      var x := EncodeChar(s[0]);
      var b := Encode(s);
      assert b == x + Encode(s[1..]);
      assert b[..|x|] == x && b[|x|..] == Encode(s[1..]);
      DecodeEncode(s[1..]);
      assert (s[0] as int) as char == s[0];
      assert s == [s[0]] + s[1..];
    }
  }

  /** Encoding distributes over concatenation. */
  lemma {:induction false} EncodeConcat(a: string, b: string)
    ensures Encode(a + b) == Encode(a) + Encode(b)
  {
    if a == [] {
      assert a + b == b;
    } else {
      assert (a + b)[0] == a[0];
      assert (a + b)[1..] == a[1..] + b;
      EncodeConcat(a[1..], b);
    }
  }

  /** An ASCII character in front adds its one code byte in front. */
  lemma EncodeAsciiPrefix(c: char, rest: string)
    requires c as int < 0x80
    ensures Encode([c] + rest) == [c as int as byte] + Encode(rest)
  {
  }

  /** An ASCII string encodes byte for byte as its character codes. */
  lemma {:induction false} EncodeAscii(s: string)
    requires forall k | 0 <= k < |s| :: s[k] as int < 0x80
    ensures |Encode(s)| == |s|
    ensures forall k | 0 <= k < |s| :: Encode(s)[k] as int == s[k] as int
  {
    if s != [] {
      EncodeAscii(s[1..]);
      assert Encode(s) == EncodeChar(s[0]) + Encode(s[1..]);
    }
  }

  /** Encoding loses nothing: two strings with the same encoding are equal. */
  lemma {:induction false} EncodeInjective(s: string, t: string)
    requires Encode(s) == Encode(t)
    ensures s == t
  {
    if s != [] && t != [] {
      var x, y := EncodeChar(s[0]), EncodeChar(t[0]);
      assert Encode(s) == x + Encode(s[1..]);
      assert Encode(t) == y + Encode(t[1..]);
      assert x[0] == Encode(s)[0] == y[0];
      assert x == Encode(s)[..|x|] == y;
      assert s[0] as int == t[0] as int;
      assert Encode(s[1..]) == Encode(s)[|x|..] == Encode(t[1..]);
      EncodeInjective(s[1..], t[1..]);
      assert s == [s[0]] + s[1..];
      assert t == [t[0]] + t[1..];
    }
  }
}
