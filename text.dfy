/**
 * The string operations the metadata record uses: JavaScript's `substr`,
 * the NUL filter `replace(/\0/g, "")`, `trimBufferString`, and the
 * byte-pair reversal `(h.match(/../g) || []).reverse().join("")`.
 * `Substr`, `SubstrFrom` and `Pairs` agree with JavaScript on hex (ASCII)
 * text, the only text the record passes them; JavaScript counts UTF-16 code
 * units and its `.` skips line terminators, which these do not model.
 */
module Text {
  import opened Seqs
  import Hex

  const Nul: char := '\0'

  /** `s.substr(start, length)` on hex text, for non-negative arguments: at most `length` characters from `start` on. */
  function Substr(s: string, start: nat, length: nat): (r: string)
    ensures |r| == if start >= |s| then 0 else Min(length, |s| - start)
    ensures forall i :: 0 <= i < |r| ==> r[i] == s[start + i]
    ensures Hex.IsHex(s) && start % 2 == 0 && length % 2 == 0 ==> Hex.IsHex(r)
  {
    if start >= |s| then "" else s[start..Min(|s|, start + length)]
  }

  /** `s.substr(start)` on hex text: everything from `start` on. */
  function SubstrFrom(s: string, start: nat): (r: string)
    ensures |r| == if start >= |s| then 0 else |s| - start
    ensures forall i :: 0 <= i < |r| ==> r[i] == s[start + i]
    ensures Hex.IsHex(s) && start % 2 == 0 ==> Hex.IsHex(r)
  {
    if start >= |s| then "" else s[start..]
  }

  /** A `substr` of a given length followed by the rest is the rest from the same start. */
  lemma SubstrThenRest(s: string, start: nat, length: nat)
    ensures Substr(s, start, length) + SubstrFrom(s, start + length) == SubstrFrom(s, start)
  {
  }

  /** `content.replace(/\0/g, "")`: every NUL character removed, wherever it stands. */
  function RemoveNuls(s: string): (r: string)
    ensures Nul !in r
    ensures multiset(r) == multiset(s)[Nul := 0]
    ensures Nul !in s ==> r == s
  {
    if s == [] then ""
    else
      assert s == [s[0]] + s[1..];
      (if s[0] == Nul then "" else [s[0]]) + RemoveNuls(s[1..])
  }

  /** The filter works piecewise, so it keeps the order of what it keeps. */
  lemma {:induction false} RemoveNulsConcat(a: string, b: string)
    ensures RemoveNuls(a + b) == RemoveNuls(a) + RemoveNuls(b)
  {
    if a != [] {
      assert (a + b)[0] == a[0] && (a + b)[1..] == a[1..] + b;
      RemoveNulsConcat(a[1..], b);
      var h := if a[0] == Nul then "" else [a[0]];
      assert RemoveNuls(a + b) == h + RemoveNuls(a[1..] + b);
      assert RemoveNuls(a) == h + RemoveNuls(a[1..]);
    } else {
      assert a + b == b;
    }
  }

  /**
   * `trimBufferString(str, trimLeadingNulls)`: the UTF-8 text of the bytes
   * that `str` spells in hex, with every NUL removed when the flag is set.
   * UTF-8 decoding is foreign and is passed in as `utf8`.
   */
  function TrimBufferString(str: string, trimLeadingNulls: bool, utf8: seq<byte> -> string): (r: string)
    requires Hex.IsHex(str)
    ensures trimLeadingNulls ==> Nul !in r && multiset(r) == multiset(utf8(Hex.Decode(str)))[Nul := 0]
    ensures trimLeadingNulls ==> r == RemoveNuls(utf8(Hex.Decode(str)))
    ensures !trimLeadingNulls ==> r == utf8(Hex.Decode(str))
  {
    var content := utf8(Hex.Decode(str));
    if trimLeadingNulls then RemoveNuls(content) else content
  }

  /** `s.match(/../g) || []` on hex text: the consecutive two-character groups, an odd last character dropped. */
  function Pairs(s: string): (r: seq<string>)
    ensures |r| == |s| / 2
    ensures forall i :: 0 <= i < |r| ==> |r[i]| == 2 && r[i] == s[2 * i..2 * i + 2]
  {
    if |s| < 2 then [] else [s[..2]] + Pairs(s[2..])
  }

  /** `parts.join("")`. */
  function Join(parts: seq<string>): (r: string) {
    if parts == [] then "" else parts[0] + Join(parts[1..])
  }

  lemma {:induction false} JoinSnoc(parts: seq<string>, last: string)
    ensures Join(parts + [last]) == Join(parts) + last
  {
    if parts == [] {
      assert parts + [last] == [last];
    } else {
      assert (parts + [last])[1..] == parts[1..] + [last];
      JoinSnoc(parts[1..], last);
    }
  }

  /**
   * `(s.match(/../g) || []).reverse().join("")`: the digit pairs of `s` in the
   * opposite order. Its properties are `ReversePairsEncode` and
   * `ReversePairsInvolution`; `BoostPowMetadata.ExportField` applies it to a field.
   */
  function ReversePairs(s: string): (r: string) {
    Join(Reverse(Pairs(s)))
  }

  /** Reversing the digit pairs of the hex of some bytes is the hex of the reversed bytes. */
  lemma {:induction false} ReversePairsEncode(b: seq<byte>)
    ensures ReversePairs(Hex.Encode(b)) == Hex.Encode(Reverse(b))
  {
    if b != [] {
      var e := Hex.Encode(b);
      var head := Hex.EncodeByte(b[0]);
      assert e[..2] == head;
      assert e[2..] == Hex.Encode(b[1..]);
      assert Pairs(e) == [head] + Pairs(Hex.Encode(b[1..]));
      ReverseConcat([head], Pairs(Hex.Encode(b[1..])));
      assert Reverse([head]) == [head];
      JoinSnoc(Reverse(Pairs(Hex.Encode(b[1..]))), head);
      ReversePairsEncode(b[1..]);
      Hex.EncodeConcat(Reverse(b[1..]), [b[0]]);
      assert Hex.Encode([b[0]]) == head;
    }
  }

  /** On well-formed hex, reversing the digit pairs twice gives back the text. */
  lemma ReversePairsInvolution(s: string)
    requires Hex.IsHex(s)
    ensures ReversePairs(ReversePairs(s)) == s
  {
    var d := Hex.Decode(s);
    Hex.EncodeDecode(s);
    ReversePairsEncode(d);
    ReversePairsEncode(Reverse(d));
    ReverseInvolution(d);
  }
}
