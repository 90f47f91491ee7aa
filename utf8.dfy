/** UTF-8, as far as the library depends on it: libgit2 hands over an
    author's name as bytes, and `String::from_utf8` (or `Signature::name`)
    either decodes them or fails. `str::len` counts the same bytes. The
    well-formed byte sequences are those of Table 3-7 of the Unicode
    Standard (chapter 3, section 3.9). */
module Utf8 {
  import opened Wrappers

  type byte = b: int | 0 <= b < 256

  /** `FromUtf8Error`: how many leading bytes were valid. */
  datatype Utf8Error = Utf8Error(validUpTo: nat)

  /** The UTF-8 encoding of one scalar value (Dafny's `char`). */
  function EncodeChar(c: char): (r: seq<byte>)
    ensures 1 <= |r| <= 4
    ensures |r| == 1 <==> (c as int) < 0x80
  {
    var n := c as int;
    if n < 0x80 then [n]
    else if n < 0x800 then [0xC0 + n / 64, 0x80 + n % 64]
    else if n < 0x10000 then
      var r := n % 4096;
      [0xE0 + n / 4096, 0x80 + r / 64, 0x80 + r % 64]
    else
      var r1 := n % 262144;
      var r2 := r1 % 4096;
      [0xF0 + n / 262144, 0x80 + r1 / 4096, 0x80 + r2 / 64, 0x80 + r2 % 64]
  }

  /** The UTF-8 encoding of a string (`String::into_bytes`). */
  function Encode(s: string): (r: seq<byte>)
    ensures |r| >= |s|
  {
    if s == [] then [] else EncodeChar(s[0]) + Encode(s[1..])
  }

  predicate IsContinuation(b: byte) {
    0x80 <= b <= 0xBF
  }

  /** The allowed range of the second byte after lead byte `b0`. */
  predicate SecondByteOk(b0: byte, b1: byte) {
    if b0 == 0xE0 then 0xA0 <= b1 <= 0xBF
    else if b0 == 0xED then 0x80 <= b1 <= 0x9F
    else if b0 == 0xF0 then 0x90 <= b1 <= 0xBF
    else if b0 == 0xF4 then 0x80 <= b1 <= 0x8F
    else IsContinuation(b1)
  }

  /** The number of bytes a lead byte announces, or 0 when `b0` cannot start
      a character. */
  function SequenceLength(b0: byte): nat {
    if b0 < 0x80 then 1
    else if 0xC2 <= b0 <= 0xDF then 2
    else if 0xE0 <= b0 <= 0xEF then 3
    else if 0xF0 <= b0 <= 0xF4 then 4
    else 0
  }

  /** The scalar value carried by a two-, three- or four-byte sequence. */
  function Payload2(b0: byte, b1: byte): int {
    (b0 as int - 0xC0) * 64 + (b1 as int - 0x80)
  }

  function Payload3(b0: byte, b1: byte, b2: byte): int {
    (b0 as int - 0xE0) * 4096 + (b1 as int - 0x80) * 64 + (b2 as int - 0x80)
  }

  function Payload4(b0: byte, b1: byte, b2: byte, b3: byte): int {
    (b0 as int - 0xF0) * 262144 + (b1 as int - 0x80) * 4096 + (b2 as int - 0x80) * 64 + (b3 as int - 0x80)
  }

  /** Decode the first character of `b`: the character and how many bytes it
      took, or None when `b` does not start with a well-formed sequence. */
  function DecodeFirst(b: seq<byte>): (r: Option<(char, nat)>)
    requires b != []
    ensures r.Some? ==> r.value.1 == SequenceLength(b[0]) && 1 <= r.value.1 <= |b|
  {
    var n := SequenceLength(b[0]);
    if n == 0 || |b| < n then None
    else if n == 1 then Some((b[0] as char, 1))
    else if !SecondByteOk(b[0], b[1]) then None
    else if n == 2 then
      Some((Payload2(b[0], b[1]) as char, 2))
    else if !IsContinuation(b[2]) then None
    else if n == 3 then
      Some((Payload3(b[0], b[1], b[2]) as char, 3))
    else if !IsContinuation(b[3]) then None
    else
      Some((Payload4(b[0], b[1], b[2], b[3]) as char, 4))
  }

  /** `String::from_utf8`: the decoded string, or the error that says how
      long the longest valid prefix is. */
  function Decode(b: seq<byte>): (r: Result<string, Utf8Error>)
    ensures r.Ok? ==> |r.value| <= |b|
    ensures r.Err? ==> r.error.validUpTo < |b|
    decreases |b|
  {
    if b == [] then Ok([])
    else match DecodeFirst(b)
      case None => Err(Utf8Error(0))
      case Some((c, n)) =>
        match Decode(b[n..])
        case Ok(s) => Ok([c] + s)
        case Err(e) => Err(Utf8Error(e.validUpTo + n))
  }

  lemma DecodeFirstOfEncodeChar3(c: char, rest: seq<byte>)
    requires 0x800 <= c as int < 0x10000
    ensures DecodeFirst(EncodeChar(c) + rest) == Some((c, 3))
  {
    var n := c as int;
    var r := n % 4096;
    var b := EncodeChar(c) + rest;
    assert b[0] == 0xE0 + n / 4096 && b[1] == 0x80 + r / 64 && b[2] == 0x80 + r % 64;
    assert n == n / 4096 * 4096 + r;
    assert r == r / 64 * 64 + r % 64;
    assert Payload3(b[0], b[1], b[2]) == n;
  }

  lemma DecodeFirstOfEncodeChar4(c: char, rest: seq<byte>)
    requires 0x10000 <= c as int
    ensures DecodeFirst(EncodeChar(c) + rest) == Some((c, 4))
  {
    var n := c as int;
    var r1 := n % 262144;
    var r2 := r1 % 4096;
    var b := EncodeChar(c) + rest;
    assert b[0] == 0xF0 + n / 262144 && b[1] == 0x80 + r1 / 4096;
    assert b[2] == 0x80 + r2 / 64 && b[3] == 0x80 + r2 % 64;
    assert n == n / 262144 * 262144 + r1;
    assert r1 == r1 / 4096 * 4096 + r2;
    assert r2 == r2 / 64 * 64 + r2 % 64;
    assert Payload4(b[0], b[1], b[2], b[3]) == n;
  }

  /** Decoding the encoding of one character gives that character back,
      whatever follows it. */
  lemma DecodeFirstOfEncodeChar(c: char, rest: seq<byte>)
    ensures DecodeFirst(EncodeChar(c) + rest) == Some((c, |EncodeChar(c)|))
  {
    var n := c as int;
    var b := EncodeChar(c) + rest;
    if n < 0x80 {
    } else if n < 0x800 {
      assert b[0] == 0xC0 + n / 64 && b[1] == 0x80 + n % 64;
      assert Payload2(b[0], b[1]) == n;
    } else if n < 0x10000 {
      DecodeFirstOfEncodeChar3(c, rest);
    } else {
      DecodeFirstOfEncodeChar4(c, rest);
    }
  }

  lemma EncodeCharOfDecodeFirst3(b: seq<byte>)
    requires |b| >= 3 && SequenceLength(b[0]) == 3 && DecodeFirst(b).Some?
    ensures EncodeChar(DecodeFirst(b).value.0) == b[..3]
  {
    var n := Payload3(b[0], b[1], b[2]);
    assert DecodeFirst(b).value.0 as int == n;
    var hi, mid, lo := b[0] as int - 0xE0, b[1] as int - 0x80, b[2] as int - 0x80;
    assert 0 <= mid < 64 && 0 <= lo < 64;
    var r := mid * 64 + lo;
    assert 0 <= r < 4096 && n == hi * 4096 + r;
    assert n / 4096 == hi && n % 4096 == r;
    assert r / 64 == mid && r % 64 == lo;
  }

  lemma EncodeCharOfDecodeFirst4(b: seq<byte>)
    requires |b| >= 4 && SequenceLength(b[0]) == 4 && DecodeFirst(b).Some?
    ensures EncodeChar(DecodeFirst(b).value.0) == b[..4]
  {
    var n := Payload4(b[0], b[1], b[2], b[3]);
    assert DecodeFirst(b).value.0 as int == n;
    var hi, b1, b2, b3 := b[0] as int - 0xF0, b[1] as int - 0x80, b[2] as int - 0x80, b[3] as int - 0x80;
    assert 0 <= b1 < 64 && 0 <= b2 < 64 && 0 <= b3 < 64;
    var r2 := b2 * 64 + b3;
    var r1 := b1 * 4096 + r2;
    assert 0 <= r2 < 4096 && 0 <= r1 < 262144 && n == hi * 262144 + r1;
    assert n / 262144 == hi && n % 262144 == r1;
    assert r1 / 4096 == b1 && r1 % 4096 == r2;
    assert r2 / 64 == b2 && r2 % 64 == b3;
  }

  /** A well-formed first sequence is the encoding of the character it
      decodes to. */
  lemma EncodeCharOfDecodeFirst(b: seq<byte>)
    requires b != [] && DecodeFirst(b).Some?
    ensures EncodeChar(DecodeFirst(b).value.0) == b[..DecodeFirst(b).value.1]
  {
    var k := SequenceLength(b[0]);
    if k == 2 {
      var n := Payload2(b[0], b[1]);
      assert DecodeFirst(b).value.0 as int == n;
      assert n / 64 == b[0] as int - 0xC0 && n % 64 == b[1] as int - 0x80;
    } else if k == 3 {
      EncodeCharOfDecodeFirst3(b);
    } else if k == 4 {
      EncodeCharOfDecodeFirst4(b);
    }
  }

  /** Every string survives the round trip through its encoding. */
  lemma {:induction false} DecodeEncode(s: string)
    ensures Decode(Encode(s)) == Ok(s)
  {
    if s != [] {
      var e := EncodeChar(s[0]);
      var rest := Encode(s[1..]);
      assert Encode(s) == e + rest;
      DecodeFirstOfEncodeChar(s[0], rest);
      assert (e + rest)[|e|..] == rest;
      DecodeEncode(s[1..]);
      assert [s[0]] + s[1..] == s;
    }
  }

  /** Whatever decodes, decodes to the string whose encoding it is: the
      decoder accepts nothing but encodings. */
  lemma {:induction false} EncodeDecode(b: seq<byte>)
    requires Decode(b).Ok?
    ensures Encode(Decode(b).value) == b
    decreases |b|
  {
    if b != [] {
      var c := DecodeFirst(b).value.0;
      var n := DecodeFirst(b).value.1;
      var rest := Decode(b[n..]).value;
      assert Decode(b) == Ok([c] + rest);
      EncodeDecode(b[n..]);
      EncodeCharOfDecodeFirst(b);
      var s := [c] + rest;
      assert s[0] == c && s[1..] == rest;
      calc {
        Encode(s);
        EncodeChar(c) + Encode(rest);
        b[..n] + b[n..];
        { SplitJoin(b, n); }
        b;
      }
    }
  }

  /** The first character is read from at most its own bytes: cutting the
      input after them does not change it. */
  lemma DecodeFirstPrefix(b: seq<byte>, m: nat)
    requires b != [] && DecodeFirst(b).Some? && DecodeFirst(b).value.1 <= m <= |b|
    ensures DecodeFirst(b[..m]) == DecodeFirst(b)
  {
    var p := b[..m];
    assert p[0] == b[0];
    var n := DecodeFirst(b).value.1;
    assert forall i :: 0 <= i < n ==> p[i] == b[i];
  }

  /** The error's `valid_up_to` is honest: the bytes before it decode. */
  lemma {:induction false} DecodeErrPrefix(b: seq<byte>)
    requires Decode(b).Err?
    ensures Decode(b[..Decode(b).error.validUpTo]).Ok?
    decreases |b|
  {
    match DecodeFirst(b)
    case None =>
      assert b[..0] == [];
    case Some((c, n)) =>
      var rest := b[n..];
      var k := Decode(rest).error.validUpTo;
      DecodeErrPrefix(rest);
      var p := b[..k + n];
      DecodeFirstPrefix(b, k + n);
      assert p[n..] == rest[..k];
  }

  lemma SplitJoin(b: seq<byte>, n: nat)
    requires n <= |b|
    ensures b[..n] + b[n..] == b
  {
  }

  /** `from_utf8` fails exactly on the byte strings that encode no string. */
  lemma DecodeOkIffEncoding(b: seq<byte>)
    ensures Decode(b).Ok? <==> exists s :: Encode(s) == b
  {
    if Decode(b).Ok? {
      EncodeDecode(b);
    }
    if exists s :: Encode(s) == b {
      var s :| Encode(s) == b;
      DecodeEncode(s);
    }
  }

  /** Rust's `str::len`: the length in bytes of the UTF-8 encoding. */
  function ByteLen(s: string): (n: nat)
    ensures n >= |s|
  {
    |Encode(s)|
  }
}
