/** The Base64 encoding of section 4 of RFC 4648, as `base64.b64encode` writes
    it: the standard alphabet `A-Z a-z 0-9 + /`, each 3 bytes becoming 4
    characters, and a final group of 1 or 2 bytes padded with `=` to 4
    characters. The decoder accepts the canonical layout (length a multiple of
    4, `=` only at the end of the last group) and, like Python's, ignores the
    unused low bits of a padded final group. */
module Base64 {
  import opened Wrappers

  /** A 6-bit value: one Base64 digit. */
  type sextet = v: int | 0 <= v < 64

  /** The alphabet character for the digit `v` (Table 1 of RFC 4648). */
  function Char(v: sextet): char {
    if v < 26 then ('A' as int + v) as char
    else if v < 52 then ('a' as int + (v - 26)) as char
    else if v < 62 then ('0' as int + (v - 52)) as char
    else if v == 62 then '+'
    else '/'
  }

  /** The digit an alphabet character stands for; None for any other
      character, the pad `=` included. */
  function Value(c: char): Option<sextet> {
    if 'A' <= c <= 'Z' then Some(c as int - 'A' as int)
    else if 'a' <= c <= 'z' then Some(c as int - 'a' as int + 26)
    else if '0' <= c <= '9' then Some(c as int - '0' as int + 52)
    else if c == '+' then Some(62)
    else if c == '/' then Some(63)
    else None
  }

  /** Reading a digit back gives the digit that was written. */
  lemma ValueChar(v: sextet)
    ensures Value(Char(v)) == Some(v)
    ensures Char(v) != '='
  {
  }

  /** The four characters of three whole bytes. */
  function EncodeGroup(a: byte, b: byte, c: byte): string {
    [Char(a / 4), Char((a % 4) * 16 + b / 16), Char((b % 16) * 4 + c / 64), Char(c % 64)]
  }

  /** The padded four characters of a final group of one or two bytes. */
  function EncodeTail(t: seq<byte>): string
    requires 1 <= |t| <= 2
  {
    if |t| == 1 then [Char(t[0] / 4), Char((t[0] % 4) * 16), '=', '=']
    else [Char(t[0] / 4), Char((t[0] % 4) * 16 + t[1] / 16), Char((t[1] % 16) * 4), '=']
  }

  /** The length of the encoding of n bytes: `4 * ceil(n / 3)`. */
  function EncodedLength(n: nat): nat {
    4 * ((n + 2) / 3)
  }

  /** `base64.b64encode(b)`, as text, of EncodedLength(|b|) characters. */
  function Encode(b: seq<byte>): (r: string)
    ensures |r| == EncodedLength(|b|)
    decreases |b|
  {
    if |b| == 0 then ""
    else if |b| < 3 then EncodeTail(b)
    else EncodeGroup(b[0], b[1], b[2]) + Encode(b[3..])
  }

  /** The byte made of the digit `hi` and the top two bits of `lo`. */
  function High(hi: sextet, lo: sextet): byte {
    (hi as int) * 4 + (lo as int) / 16
  }

  /** The byte made of the low four bits of `hi` and the top four bits of `lo`. */
  function Middle(hi: sextet, lo: sextet): byte {
    ((hi as int) % 16) * 16 + (lo as int) / 4
  }

  /** The byte made of the low two bits of `hi` and the digit `lo`. */
  function Low(hi: sextet, lo: sextet): byte {
    ((hi as int) % 4) * 64 + lo as int
  }

  /** Three bytes from four digits. */
  function DecodeGroup(q: string): (r: Option<seq<byte>>)
    requires |q| == 4
    ensures r.Some? ==> |r.value| == 3
  {
    match (Value(q[0]), Value(q[1]), Value(q[2]), Value(q[3]))
    case (Some(v0), Some(v1), Some(v2), Some(v3)) =>
      Some([High(v0, v1), Middle(v1, v2), Low(v2, v3)])
    case _ => None
  }

  /** The last group: four digits, or two or three digits and their padding. */
  function DecodeLast(q: string): (r: Option<seq<byte>>)
    requires |q| == 4
    ensures r.Some? ==> 1 <= |r.value| <= 3
  {
    if q[2] == '=' && q[3] == '=' then
      match (Value(q[0]), Value(q[1]))
      case (Some(v0), Some(v1)) => Some([High(v0, v1)])
      case _ => None
    else if q[3] == '=' then
      match (Value(q[0]), Value(q[1]), Value(q[2]))
      case (Some(v0), Some(v1), Some(v2)) => Some([High(v0, v1), Middle(v1, v2)])
      case _ => None
    else DecodeGroup(q)
  }

  /** `base64.b64decode(s)`; None where Python raises `binascii.Error`. */
  function Decode(s: string): (r: Option<seq<byte>>)
    ensures |s| == 0 ==> r == Some([])
    decreases |s|
  {
    if |s| == 0 then Some([])
    else if |s| < 4 then None
    else if |s| == 4 then DecodeLast(s)
    else
      match DecodeGroup(s[..4])
      case None => None
      case Some(g) =>
        match Decode(s[4..])
        case None => None
        case Some(rest) => Some(g + rest)
  }

  /** Accepted text has a length that is a multiple of 4, exactly the length
      of the encoding of the bytes it decodes to. */
  lemma {:induction false} DecodeLength(s: string)
    requires Decode(s).Some?
    ensures |s| % 4 == 0 && EncodedLength(|Decode(s).value|) == |s|
    decreases |s|
  {
    if |s| == 4 {
      LastGroupLength(|DecodeLast(s).value|);
    } else if |s| > 4 {
      DecodeLength(s[4..]);
      DecodeLengthLonger(s);
    }
  }

  /** The step of DecodeLength past a whole first group. */
  lemma DecodeLengthLonger(s: string)
    requires |s| > 4 && Decode(s).Some?
    requires |s[4..]| % 4 == 0 && EncodedLength(|Decode(s[4..]).value|) == |s[4..]|
    ensures |s| % 4 == 0 && EncodedLength(|Decode(s).value|) == |s|
  {
    var rest := Decode(s[4..]).value;
    var g := DecodeGroup(s[..4]).value;
    assert Decode(s) == Some(g + rest);
    GroupAndRestLength(|s|, |rest|);
  }

  lemma GroupAndRestLength(n: nat, m: nat)
    requires n >= 4 && (n - 4) % 4 == 0 && EncodedLength(m) == n - 4
    ensures n % 4 == 0 && EncodedLength(3 + m) == n
  {
    EncodedLengthStep(m);
  }

  /** A final group of one to three bytes takes four characters. */
  lemma LastGroupLength(m: nat)
    requires 1 <= m <= 3
    ensures EncodedLength(m) == 4
  {
  }

  /** Three more bytes take four more characters. */
  lemma EncodedLengthStep(m: nat)
    ensures EncodedLength(m + 3) == EncodedLength(m) + 4
  {
    assert (m + 3 + 2) / 3 == (m + 2) / 3 + 1;
  }

  lemma DecodeEncodeGroup(a: byte, b: byte, c: byte)
    ensures DecodeGroup(EncodeGroup(a, b, c)) == Some([a, b, c])
    ensures DecodeLast(EncodeGroup(a, b, c)) == Some([a, b, c])
  {
    var v0, v1, v2, v3 := a / 4, (a % 4) * 16 + b / 16, (b % 16) * 4 + c / 64, c % 64;
    ValueChar(v0); ValueChar(v1); ValueChar(v2); ValueChar(v3);
    assert v1 / 16 == a % 4 && v1 % 16 == b / 16;
    assert v2 / 4 == b % 16 && v2 % 4 == c / 64;
    assert High(v0, v1) == a && Middle(v1, v2) == b && Low(v2, v3) == c;
  }

  lemma DecodeEncodeTail(t: seq<byte>)
    requires 1 <= |t| <= 2
    ensures DecodeLast(EncodeTail(t)) == Some(t)
  {
    if |t| == 1 {
      var v0, v1 := t[0] / 4, (t[0] % 4) * 16;
      ValueChar(v0); ValueChar(v1);
      assert High(v0, v1) == t[0];
      assert t == [t[0]];
    } else {
      var v0, v1, v2 := t[0] / 4, (t[0] % 4) * 16 + t[1] / 16, (t[1] % 16) * 4;
      ValueChar(v0); ValueChar(v1); ValueChar(v2);
      assert v1 / 16 == t[0] % 4 && v1 % 16 == t[1] / 16;
      assert v2 / 4 == t[1] % 16;
      assert High(v0, v1) == t[0] && Middle(v1, v2) == t[1];
      assert t == [t[0], t[1]];
    }
  }

  /** Decoding inverts encoding: `b64decode(b64encode(b)) == b`. */
  lemma {:induction false} DecodeEncode(b: seq<byte>)
    ensures Decode(Encode(b)) == Some(b)
    decreases |b|
  {
    if |b| == 0 {
    } else if |b| < 3 {
      DecodeEncodeTail(b);
    } else if |b| == 3 {
      DecodeEncodeGroup(b[0], b[1], b[2]);
      assert Encode(b) == EncodeGroup(b[0], b[1], b[2]) + Encode(b[3..]);
      assert b[3..] == [];
      assert b == [b[0], b[1], b[2]];
    } else {
      DecodeEncode(b[3..]);
      DecodeEncodeLonger(b);
    }
  }

  /** The step of DecodeEncode for four or more bytes. */
  lemma DecodeEncodeLonger(b: seq<byte>)
    requires |b| > 3
    requires Decode(Encode(b[3..])) == Some(b[3..])
    ensures Decode(Encode(b)) == Some(b)
  {
    var g := EncodeGroup(b[0], b[1], b[2]);
    var rest := Encode(b[3..]);
    assert |rest| > 0;
    assert Encode(b) == g + rest;
    DecodeEncodeGroup(b[0], b[1], b[2]);
    SplitThree(b);
    DecodeAppend(g, rest, [b[0], b[1], b[2]], b[3..]);
  }

  lemma SplitThree(b: seq<byte>)
    requires |b| >= 3
    ensures b == [b[0], b[1], b[2]] + b[3..]
  {
  }

  /** A whole group followed by further text decodes group by group. */
  lemma DecodeAppend(g: string, rest: string, x: seq<byte>, y: seq<byte>)
    requires |g| == 4 && |rest| > 0
    requires DecodeGroup(g) == Some(x) && Decode(rest) == Some(y)
    ensures Decode(g + rest) == Some(x + y)
  {
    var s := g + rest;
    assert s[..4] == g && s[4..] == rest;
  }

  /** Encoding is injective: different byte strings give different text. */
  lemma EncodeInjective(b1: seq<byte>, b2: seq<byte>)
    requires b1 != b2
    ensures Encode(b1) != Encode(b2)
  {
    DecodeEncode(b1);
    DecodeEncode(b2);
  }

  /** The encoding uses only alphabet characters and the pad `=`, so it is
      safe to store and transport as text. */
  lemma {:induction false} EncodeIsText(b: seq<byte>)
    ensures forall i :: 0 <= i < |Encode(b)| ==> Value(Encode(b)[i]).Some? || Encode(b)[i] == '='
    decreases |b|
  {
    if |b| >= 3 {
      var v0, v1, v2, v3 := b[0] / 4, (b[0] % 4) * 16 + b[1] / 16, (b[1] % 16) * 4 + b[2] / 64, b[2] % 64;
      ValueChar(v0); ValueChar(v1); ValueChar(v2); ValueChar(v3);
      EncodeIsText(b[3..]);
    } else if |b| == 2 {
      ValueChar(b[0] / 4); ValueChar((b[0] % 4) * 16 + b[1] / 16); ValueChar((b[1] % 16) * 4);
    } else if |b| == 1 {
      ValueChar(b[0] / 4); ValueChar((b[0] % 4) * 16);
    }
  }
}
