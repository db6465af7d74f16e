/** UTF-8 (RFC 3629) as used by Python's `str.encode('utf-8')` and
    `bytes.decode('utf-8')` in strict mode: every Unicode scalar value encodes
    to one to four bytes, and decoding rejects overlong forms, surrogates,
    values above U+10FFFF, stray continuation bytes and truncated sequences.
    The two directions are proved inverse both ways: DecodeEncode and
    EncodeDecode. */
module Utf8 {
  import opened Wrappers

  /** True when every character of `s` is in the 7-bit ASCII range. */
  predicate IsAscii(s: string) {
    forall i :: 0 <= i < |s| ==> s[i] as int < 0x80
  }

  /** The encoding of one character. */
  function EncodeChar(c: char): (r: seq<byte>)
    ensures 1 <= |r| <= 4
    ensures (c as int < 0x80) <==> |r| == 1
  {
    var n := c as int;
    if n < 0x80 then [n]
    else if n < 0x800 then [0xC0 + n / 64, 0x80 + n % 64]
    else if n < 0x10000 then [0xE0 + n / 4096, 0x80 + (n / 64) % 64, 0x80 + n % 64]
    else [0xF0 + n / 262144, 0x80 + (n / 4096) % 64, 0x80 + (n / 64) % 64, 0x80 + n % 64]
  }

  /** `s.encode('utf-8')`. */
  function Encode(s: string): (r: seq<byte>)
    ensures |r| >= |s|
    ensures |r| == 0 <==> |s| == 0
  {
    if |s| == 0 then [] else EncodeChar(s[0]) + Encode(s[1..])
  }

  predicate IsContinuation(b: byte) {
    0x80 <= b < 0xC0
  }

  /** The scalar value `cp` as a character, when it is one. */
  function ToChar(cp: int): (r: Option<char>)
    ensures r.Some? <==> (0 <= cp < 0xD800 || 0xE000 <= cp < 0x110000)
    ensures r.Some? ==> r.value as int == cp
  {
    if 0 <= cp < 0xD800 || 0xE000 <= cp < 0x110000 then Some(cp as char) else None
  }

  /** Decodes the character that starts `b`: the character and the number of
      bytes it takes, or None when `b` does not start with a well-formed
      sequence. */
  function DecodeChar(b: seq<byte>): (r: Option<(char, nat)>)
    ensures r.Some? ==> 1 <= r.value.1 <= |b| && r.value.1 <= 4
  {
    if |b| == 0 then None
    else if b[0] < 0x80 then Some((b[0] as char, 1))
    else if 0xC0 <= b[0] < 0xE0 then
      if |b| < 2 || !IsContinuation(b[1]) then None
      else
        var cp := (b[0] as int - 0xC0) * 64 + (b[1] as int - 0x80);
        if cp < 0x80 then None
        else match ToChar(cp) case Some(c) => Some((c, 2)) case None => None
    else if 0xE0 <= b[0] < 0xF0 then
      if |b| < 3 || !IsContinuation(b[1]) || !IsContinuation(b[2]) then None
      else
        var cp := (b[0] as int - 0xE0) * 4096 + (b[1] as int - 0x80) * 64 + (b[2] as int - 0x80);
        if cp < 0x800 then None
        else match ToChar(cp) case Some(c) => Some((c, 3)) case None => None
    else if 0xF0 <= b[0] < 0xF8 then
      if |b| < 4 || !IsContinuation(b[1]) || !IsContinuation(b[2]) || !IsContinuation(b[3]) then None
      else
        var cp := (b[0] as int - 0xF0) * 262144 + (b[1] as int - 0x80) * 4096 + (b[2] as int - 0x80) * 64 + (b[3] as int - 0x80);
        if cp < 0x10000 then None
        else match ToChar(cp) case Some(c) => Some((c, 4)) case None => None
    else None
  }

  /** `b.decode('utf-8')`; None where Python raises `UnicodeDecodeError`. */
  function Decode(b: seq<byte>): (r: Option<string>)
    ensures r.Some? ==> |r.value| <= |b|
    decreases |b|
  {
    if |b| == 0 then Some("")
    else match DecodeChar(b)
      case None => None
      case Some((c, n)) =>
        match Decode(b[n..])
        case None => None
        case Some(rest) => Some([c] + rest)
  }

  /** Decoding the encoding of `c`, followed by anything, gives `c` back and
      consumes exactly its encoding. */
  lemma DecodeEncodeChar(c: char, rest: seq<byte>)
    ensures DecodeChar(EncodeChar(c) + rest) == Some((c, |EncodeChar(c)|))
  {
    var n := c as int;
    if n < 0x80 {
    } else if n < 0x800 {
      DecodeEncodeTwo(c, rest);
    } else if n < 0x10000 {
      DecodeEncodeThree(c, rest);
    } else {
      DecodeEncodeFour(c, rest);
    }
  }

  lemma DecodeEncodeTwo(c: char, rest: seq<byte>)
    requires 0x80 <= c as int < 0x800
    ensures DecodeChar(EncodeChar(c) + rest) == Some((c, 2))
  {
    var n := c as int;
    var b := EncodeChar(c) + rest;
    var hi, lo := n / 64, n % 64;
    assert n == hi * 64 + lo;
    assert b[0] as int - 0xC0 == hi && b[1] as int - 0x80 == lo;
  }

  lemma DecodeEncodeThree(c: char, rest: seq<byte>)
    requires 0x800 <= c as int < 0x10000
    ensures DecodeChar(EncodeChar(c) + rest) == Some((c, 3))
  {
    var n := c as int;
    var b := EncodeChar(c) + rest;
    var d0, d1, d2 := n / 4096, (n / 64) % 64, n % 64;
    assert n == d0 * 4096 + d1 * 64 + d2 by {
      assert n == (n / 64) * 64 + d2;
      assert n / 64 == d0 * 64 + d1;
    }
    assert b[0] as int - 0xE0 == d0 && b[1] as int - 0x80 == d1 && b[2] as int - 0x80 == d2;
  }

  lemma DecodeEncodeFour(c: char, rest: seq<byte>)
    requires 0x10000 <= c as int
    ensures DecodeChar(EncodeChar(c) + rest) == Some((c, 4))
  {
    var n := c as int;
    var b := EncodeChar(c) + rest;
    var d0, d1, d2, d3 := n / 262144, (n / 4096) % 64, (n / 64) % 64, n % 64;
    FourDigits(n, d0, d1, d2, d3);
    assert b[0] as int - 0xF0 == d0 && b[1] as int - 0x80 == d1;
    assert b[2] as int - 0x80 == d2 && b[3] as int - 0x80 == d3;
  }

  /** The base-64 digits of a code point of four bytes. */
  lemma FourDigits(n: int, d0: int, d1: int, d2: int, d3: int)
    requires 0 <= n
    requires d0 == n / 262144 && d1 == (n / 4096) % 64 && d2 == (n / 64) % 64 && d3 == n % 64
    ensures n == d0 * 262144 + d1 * 4096 + d2 * 64 + d3
  {
    var q1, q2 := n / 64, n / 4096;
    assert n == q1 * 64 + d3;
    assert q2 == q1 / 64;
    assert q1 == q2 * 64 + d2;
    assert d0 == q2 / 64;
    assert q2 == d0 * 64 + d1;
  }

  /** Decoding inverts encoding: `s.encode('utf-8').decode('utf-8') == s`. */
  lemma {:induction false} DecodeEncode(s: string)
    ensures Decode(Encode(s)) == Some(s)
  {
    if |s| > 0 {
      var e := EncodeChar(s[0]);
      var tail := Encode(s[1..]);
      DecodeEncodeChar(s[0], tail);
      assert (e + tail)[|e|..] == tail;
      DecodeEncode(s[1..]);
      assert [s[0]] + s[1..] == s;
    }
  }

  /** Encoding distributes over concatenation. */
  lemma {:induction false} EncodeAppend(s: string, t: string)
    ensures Encode(s + t) == Encode(s) + Encode(t)
  {
    if |s| > 0 {
      assert (s + t)[0] == s[0] && (s + t)[1..] == s[1..] + t;
      EncodeAppend(s[1..], t);
      assert Encode(s + t) == EncodeChar(s[0]) + (Encode(s[1..]) + Encode(t));
    } else {
      assert s + t == t;
    }
  }

  /** ASCII text encodes one byte per character, each byte the character's
      code: the card number and CVV fields take exactly their length. */
  lemma {:induction false} EncodeAscii(s: string)
    requires IsAscii(s)
    ensures |Encode(s)| == |s|
    ensures forall i :: 0 <= i < |s| ==> Encode(s)[i] == s[i] as int
  {
    if |s| > 0 {
      EncodeAscii(s[1..]);
    }
  }

  /** Bytes below 0x80 decode to the characters with those codes. */
  lemma {:induction false} DecodeAscii(b: seq<byte>)
    requires forall i :: 0 <= i < |b| ==> b[i] < 0x80
    ensures Decode(b).Some? && |Decode(b).value| == |b|
    ensures forall i :: 0 <= i < |b| ==> Decode(b).value[i] as int == b[i]
  {
    if |b| > 0 {
      DecodeAscii(b[1..]);
    }
  }

  /** A well-formed sequence is the encoding of the character it decodes to:
      the decoder accepts no overlong or otherwise non-canonical form. */
  lemma EncodeDecodeChar(b: seq<byte>, c: char, n: nat)
    requires DecodeChar(b) == Some((c, n))
    ensures EncodeChar(c) == b[..n]
  {
    if b[0] < 0x80 {
      assert b[..1] == [b[0]];
    } else if 0xC0 <= b[0] < 0xE0 {
      EncodeDecodeTwo(b, c);
    } else if 0xE0 <= b[0] < 0xF0 {
      EncodeDecodeThree(b, c);
    } else {
      EncodeDecodeFour(b, c);
    }
  }

  lemma EncodeDecodeTwo(b: seq<byte>, c: char)
    requires |b| > 0 && 0xC0 <= b[0] < 0xE0 && DecodeChar(b) == Some((c, 2))
    ensures EncodeChar(c) == b[..2]
  {
    var d0, d1 := b[0] as int - 0xC0, b[1] as int - 0x80;
    assert 0 <= d1 < 64;
    assert c as int == d0 * 64 + d1;
    Split64(d0, d1);
    assert b[..2] == [b[0], b[1]];
  }

  lemma EncodeDecodeThree(b: seq<byte>, c: char)
    requires |b| > 0 && 0xE0 <= b[0] < 0xF0 && DecodeChar(b) == Some((c, 3))
    ensures EncodeChar(c) == b[..3]
  {
    var d0, d1, d2 := b[0] as int - 0xE0, b[1] as int - 0x80, b[2] as int - 0x80;
    assert 0 <= d1 < 64 && 0 <= d2 < 64;
    var q := d0 * 64 + d1;
    assert c as int == q * 64 + d2;
    Split64(q, d2);
    Split64(d0, d1);
    assert (c as int) / 4096 == q / 64;
    assert b[..3] == [b[0], b[1], b[2]];
  }

  lemma EncodeDecodeFour(b: seq<byte>, c: char)
    requires |b| > 0 && 0xF0 <= b[0] < 0xF8 && DecodeChar(b) == Some((c, 4))
    ensures EncodeChar(c) == b[..4]
  {
    var d0, d1, d2, d3 := b[0] as int - 0xF0, b[1] as int - 0x80, b[2] as int - 0x80, b[3] as int - 0x80;
    assert 0 <= d1 < 64 && 0 <= d2 < 64 && 0 <= d3 < 64;
    var q2 := d0 * 64 + d1;
    var q1 := q2 * 64 + d2;
    assert c as int == q1 * 64 + d3;
    Split64(q1, d3);
    Split64(q2, d2);
    Split64(d0, d1);
    assert (c as int) / 4096 == q1 / 64;
    assert (c as int) / 262144 == q2 / 64;
    assert b[..4] == [b[0], b[1], b[2], b[3]];
  }

  /** One base-64 digit split off the bottom of a number. */
  lemma Split64(q: int, d: int)
    requires 0 <= q && 0 <= d < 64
    ensures (q * 64 + d) / 64 == q && (q * 64 + d) % 64 == d
  {
  }

  /** Encoding inverts decoding: whatever `bytes.decode('utf-8')` accepts is
      the encoding of the string it returns. */
  lemma {:induction false} EncodeDecode(b: seq<byte>)
    requires Decode(b).Some?
    ensures Encode(Decode(b).value) == b
    decreases |b|
  {
    if |b| > 0 {
      var (c, n) := DecodeChar(b).value;
      DecodeCons(b, c, n);
      var rest := Decode(b[n..]).value;
      EncodeDecode(b[n..]);
      EncodeDecodeJoin(b, c, n, rest);
    }
  }

  /** The inductive step of EncodeDecode: the first character's encoding
      followed by the encoding of the rest is the whole input. */
  lemma EncodeDecodeJoin(b: seq<byte>, c: char, n: nat, rest: string)
    requires |b| > 0 && DecodeChar(b) == Some((c, n)) && Encode(rest) == b[n..]
    ensures Encode([c] + rest) == b
  {
    EncodeDecodeChar(b, c, n);
    EncodeCons(c, rest);
    assert b == b[..n] + b[n..];
  }

  /** An accepted sequence is its first character followed by the rest. */
  lemma DecodeCons(b: seq<byte>, c: char, n: nat)
    requires |b| > 0 && Decode(b).Some? && DecodeChar(b) == Some((c, n))
    ensures Decode(b[n..]).Some? && Decode(b) == Some([c] + Decode(b[n..]).value)
  {
  }

  lemma EncodeCons(c: char, rest: string)
    ensures Encode([c] + rest) == EncodeChar(c) + Encode(rest)
  {
    assert ([c] + rest)[0] == c && ([c] + rest)[1..] == rest;
  }


}
