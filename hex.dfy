/**
 * Lowercase hexadecimal text, as produced by Node's `Buffer.toString("hex")`
 * and read back by `Buffer.from(str, "hex")` on well-formed input.
 */
module Hex {
  import opened Seqs

  predicate IsDigit(c: char) {
    '0' <= c <= '9' || 'a' <= c <= 'f'
  }

  /** The numeric value of a lowercase hex digit. */
  function DigitValue(c: char): (n: int)
    requires IsDigit(c)
    ensures 0 <= n < 16
  {
    if c <= '9' then c as int - '0' as int else c as int - 'a' as int + 10
  }

  /** The lowercase hex digit of a value below 16. */
  function Digit(n: int): (c: char)
    requires 0 <= n < 16
    ensures IsDigit(c) && DigitValue(c) == n
  {
    if n < 10 then ('0' as int + n) as char else ('a' as int + n - 10) as char
  }

  /** Well-formed hex text: an even number of lowercase hex digits. */
  predicate IsHex(s: string) {
    |s| % 2 == 0 && forall i :: 0 <= i < |s| ==> IsDigit(s[i])
  }

  /** The two digits of one byte, high nibble first. */
  function EncodeByte(b: byte): (r: string)
    ensures |r| == 2 && IsDigit(r[0]) && IsDigit(r[1])
    ensures DigitValue(r[0]) * 16 + DigitValue(r[1]) == b
  {
    [Digit(b / 16), Digit(b % 16)]
  }

  /** `Buffer.toString("hex")`. */
  function Encode(b: seq<byte>): (r: string)
    ensures |r| == 2 * |b| && IsHex(r)
  {
    if b == [] then "" else EncodeByte(b[0]) + Encode(b[1..])
  }

  /** `Buffer.from(s, "hex")` on well-formed input: one byte per digit pair. */
  function Decode(s: string): (r: seq<byte>)
    requires IsHex(s)
    ensures |r| == |s| / 2
  {
    if s == [] then [] else [DigitValue(s[0]) * 16 + DigitValue(s[1])] + Decode(s[2..])
  }

  /** Encoding distributes over concatenation. */
  lemma {:induction false} EncodeConcat(a: seq<byte>, b: seq<byte>)
    ensures Encode(a + b) == Encode(a) + Encode(b)
  {
    if a == [] {
      assert a + b == b;
    } else {
      assert (a + b)[1..] == a[1..] + b;
      EncodeConcat(a[1..], b);
    }
  }

  /** Decoding what was encoded gives back the bytes. */
  lemma {:induction false} DecodeEncode(b: seq<byte>)
    ensures Decode(Encode(b)) == b
  {
    if b != [] {
      var e := Encode(b);
      assert e[..2] == EncodeByte(b[0]);
      assert e[2..] == Encode(b[1..]);
      DecodeEncode(b[1..]);
    }
  }

  /** Encoding what was decoded gives back the text: the hex form is canonical. */
  lemma {:induction false} EncodeDecode(s: string)
    requires IsHex(s)
    ensures Encode(Decode(s)) == s
  {
    if s != [] {
      var d := Decode(s);
      assert d[1..] == Decode(s[2..]);
      EncodeDecode(s[2..]);
      var hi, lo := DigitValue(s[0]), DigitValue(s[1]);
      assert (hi * 16 + lo) / 16 == hi && (hi * 16 + lo) % 16 == lo;
      assert EncodeByte(d[0]) == s[..2];
      assert s == s[..2] + s[2..];
    }
  }
}
