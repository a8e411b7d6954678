/** `transfer_to_bytes`: the transcript encoding that `sign` and `verify`
    apply before the signature primitive sees the data. */
module Transcript {
  import opened Results
  import opened Bytes
  import Utf8
  import opened Decimal
  import opened Secp256k1

  /** A transcript element, told apart by its exact Python type: a curve
      point, an `int`, a `str`, or anything else (a `bool`, `bytes`, `None`,
      a subclass of `int` or `str`, ...). */
  datatype Elem = Pt(point: Point) | Int(i: int) | Str(s: string) | Other

  /** What one element adds to the text. */
  function Fragment(e: Elem): (r: string)
    ensures e.Pt? ==> r == CoordinateText(e.point)
    ensures e.Int? ==> IsIntString(r) && ParseInt(r) == e.i
    ensures e.Str? ==> r == e.s
    ensures e.Other? ==> r == ""
  {
    match e
    case Pt(p) => CoordinateText(p)
    case Int(i) => Dec(i)
    case Str(s) => s
    case Other => ""
  }

  /** The text of a transcript: the fragments of its elements, in order, with
      nothing between them. */
  function Encode(data: seq<Elem>): (r: string)
    ensures data == [] ==> r == ""
  {
    if data == [] then "" else Fragment(data[0]) + Encode(data[1..])
  }

  /** The bytes `transfer_to_bytes(data)` returns. */
  function TranscriptBytes(data: seq<Elem>): (r: seq<byte>)
    ensures Utf8.Decode(r) == Some(Encode(data))
  {
    Utf8.DecodeEncode(Encode(data));
    Utf8.Encode(Encode(data))
  }

  /** Encoding distributes over concatenation of transcripts. */
  lemma {:induction false} EncodeAppend(a: seq<Elem>, b: seq<Elem>)
    ensures Encode(a + b) == Encode(a) + Encode(b)
  {
    if a == [] {
      assert a + b == b;
    } else {
      assert (a + b)[0] == a[0];
      assert (a + b)[1..] == a[1..] + b;
      EncodeAppend(a[1..], b);
    }
  }

  /** Two transcripts give the same bytes exactly when they give the same text. */
  lemma TranscriptBytesCollide(a: seq<Elem>, b: seq<Elem>)
    ensures TranscriptBytes(a) == TranscriptBytes(b) <==> Encode(a) == Encode(b)
  {
    if TranscriptBytes(a) == TranscriptBytes(b) {
      Utf8.EncodeInjective(Encode(a), Encode(b));
    }
  }

  /** A transcript of elements of other types only encodes to nothing. */
  lemma {:induction false} EncodeOnlyOther(data: seq<Elem>)
    requires forall k | 0 <= k < |data| :: data[k].Other?
    ensures Encode(data) == ""
  {
    if data != [] {
      EncodeOnlyOther(data[1..]);
    }
  }

  /** The byte form distributes over concatenation too. */
  lemma TranscriptBytesAppend(a: seq<Elem>, b: seq<Elem>)
    ensures TranscriptBytes(a + b) == TranscriptBytes(a) + TranscriptBytes(b)
  {
    EncodeAppend(a, b);
    Utf8.EncodeConcat(Encode(a), Encode(b));
  }

  /** The per-kind fragments, seen through a one-element transcript: a point
      gives its two coordinates back to back, an `int` its decimal string, a
      `str` itself, anything else nothing. */
  lemma EncodeSingle(e: Elem)
    ensures e.Pt? ==> Encode([e]) == CoordinateText(e.point)
    ensures e.Pt? && e.point.Affine? ==> Encode([e]) == Dec(e.point.x) + Dec(e.point.y)
    ensures e.Pt? && e.point.Infinity? ==> Encode([e]) == "NoneNone"
    ensures e.Int? ==> Encode([e]) == Dec(e.i) && ParseInt(Encode([e])) == e.i
    ensures e.Str? ==> Encode([e]) == e.s
    ensures e.Other? ==> Encode([e]) == ""
  {
  }

  /** An element of another type is skipped. */
  lemma {:induction false} EncodeSkipsOther(a: seq<Elem>, b: seq<Elem>)
    ensures Encode(a + [Other] + b) == Encode(a + b)
  {
    assert Encode([Other]) == "" + Encode([]);
    calc {
      Encode(a + [Other] + b);
      { EncodeAppend(a + [Other], b); }
      Encode(a + [Other]) + Encode(b);
      { EncodeAppend(a, [Other]); }
      Encode(a) + Encode(b);
      { EncodeAppend(a, b); }
      Encode(a + b);
    }
  }

  /** The encoding is not injective: two different lists of integers, and a
      point and a list of integers, encode to the same text. */
  lemma EncodeNotInjective()
    ensures [Int(1), Int(23)] != [Int(12), Int(3)]
    ensures Encode([Int(1), Int(23)]) == Encode([Int(12), Int(3)]) == "123"
    ensures Encode([Pt(Affine(1, 23))]) == "123"
  {
  }

  /** Any transcript encodes like the one string holding its text. */
  lemma EncodeCollapsesToString(data: seq<Elem>)
    ensures Encode([Str(Encode(data))]) == Encode(data)
  {
  }

  /** `transfer_to_bytes`: builds the text element by element in an
      accumulator, then encodes it as UTF-8. */
  method TransferToBytes(data: seq<Elem>) returns (b: seq<byte>)
    ensures b == TranscriptBytes(data)
  {
    var text: string := "";
    for k := 0 to |data|
      invariant text == Encode(data[..k])
    {
      var info := data[k];
      assert data[..k + 1] == data[..k] + [info];
      EncodeAppend(data[..k], [info]);
      assert Encode([info]) == Fragment(info) + Encode([]);
      if info.Pt? {
        text := text + CoordinateText(info.point);
      }
      if info.Int? {
        text := text + Dec(info.i);
      }
      if info.Str? {
        text := text + info.s;
      }
    }
    assert data[..|data|] == data;
    b := Utf8.Encode(text);
  }
}
