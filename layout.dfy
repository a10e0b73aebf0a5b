/**
 * The wire layout of a Boost POW metadata record: six byte fields written
 * one after another with no separators, and the fixed hex offsets at which
 * `fromHex` cuts a record's text apart again.
 */
module Layout {
  import opened Seqs
  import Hex
  import Text

  /** The six fields, in wire order. Used with byte fields and with hex-text fields. */
  datatype Fields<T> = Fields(
    tag: T,
    minerPubKeyHash: T,
    extraNonce1: T,
    extraNonce2: T,
    userNonce: T,
    additionalData: T)

  const TagWidth: nat := 20
  const MinerPubKeyHashWidth: nat := 20
  const ExtraNonce1Width: nat := 4
  const ExtraNonce2Width: nat := 4
  const UserNonceWidth: nat := 4
  const AdditionalDataWidth: nat := 32
  const SerializedLength: nat := 84

  /** Every field has the width the format gives it. */
  predicate HasStandardWidths(f: Fields<seq<byte>>) {
    && |f.tag| == TagWidth
    && |f.minerPubKeyHash| == MinerPubKeyHashWidth
    && |f.extraNonce1| == ExtraNonce1Width
    && |f.extraNonce2| == ExtraNonce2Width
    && |f.userNonce| == UserNonceWidth
    && |f.additionalData| == AdditionalDataWidth
  }

  /** `Buffer.concat` of the six fields: each field sits at the offset the ones before it leave. */
  function Serialize(f: Fields<seq<byte>>): (r: seq<byte>)
    ensures |r| == |f.tag| + |f.minerPubKeyHash| + |f.extraNonce1| + |f.extraNonce2| + |f.userNonce| + |f.additionalData|
    ensures HasStandardWidths(f) ==> |r| == SerializedLength
    ensures
      var o1 := |f.tag|;
      var o2 := o1 + |f.minerPubKeyHash|;
      var o3 := o2 + |f.extraNonce1|;
      var o4 := o3 + |f.extraNonce2|;
      var o5 := o4 + |f.userNonce|;
      && r[..o1] == f.tag
      && r[o1..o2] == f.minerPubKeyHash
      && r[o2..o3] == f.extraNonce1
      && r[o3..o4] == f.extraNonce2
      && r[o4..o5] == f.userNonce
      && r[o5..] == f.additionalData
  {
    f.tag + f.minerPubKeyHash + f.extraNonce1 + f.extraNonce2 + f.userNonce + f.additionalData
  }

  /**
   * The fields `fromHex` cuts out of hex text: the hex-character ranges
   * [0,40), [40,80), [80,88), [88,96), [96,104) and [104,end), each clipped
   * to the end of the text, so that a short text gives short or empty fields.
   */
  function SplitHex(s: string): (f: Fields<seq<byte>>)
    requires Hex.IsHex(s)
    ensures Hex.Encode(f.tag) == Text.Substr(s, 0, 40)
    ensures Hex.Encode(f.minerPubKeyHash) == Text.Substr(s, 40, 40)
    ensures Hex.Encode(f.extraNonce1) == Text.Substr(s, 80, 8)
    ensures Hex.Encode(f.extraNonce2) == Text.Substr(s, 88, 8)
    ensures Hex.Encode(f.userNonce) == Text.Substr(s, 96, 8)
    ensures Hex.Encode(f.additionalData) == Text.SubstrFrom(s, 104)
    ensures |s| == 2 * SerializedLength ==> HasStandardWidths(f)
  {
    var f := Fields(
      Hex.Decode(Text.Substr(s, 0, 40)),
      Hex.Decode(Text.Substr(s, 40, 40)),
      Hex.Decode(Text.Substr(s, 80, 8)),
      Hex.Decode(Text.Substr(s, 88, 8)),
      Hex.Decode(Text.Substr(s, 96, 8)),
      Hex.Decode(Text.SubstrFrom(s, 104)));
    Hex.EncodeDecode(Text.Substr(s, 0, 40));
    Hex.EncodeDecode(Text.Substr(s, 40, 40));
    Hex.EncodeDecode(Text.Substr(s, 80, 8));
    Hex.EncodeDecode(Text.Substr(s, 88, 8));
    Hex.EncodeDecode(Text.Substr(s, 96, 8));
    Hex.EncodeDecode(Text.SubstrFrom(s, 104));
    f
  }

  /** Hex of a serialised record is the six fields' hex texts one after another. */
  lemma EncodeSerialize(f: Fields<seq<byte>>)
    ensures Hex.Encode(Serialize(f)) ==
      Hex.Encode(f.tag) + Hex.Encode(f.minerPubKeyHash) + Hex.Encode(f.extraNonce1)
      + Hex.Encode(f.extraNonce2) + Hex.Encode(f.userNonce) + Hex.Encode(f.additionalData)
  {
    var a := f.tag + f.minerPubKeyHash + f.extraNonce1 + f.extraNonce2 + f.userNonce;
    var b := f.tag + f.minerPubKeyHash + f.extraNonce1 + f.extraNonce2;
    var c := f.tag + f.minerPubKeyHash + f.extraNonce1;
    var d := f.tag + f.minerPubKeyHash;
    Hex.EncodeConcat(a, f.additionalData);
    Hex.EncodeConcat(b, f.userNonce);
    Hex.EncodeConcat(c, f.extraNonce2);
    Hex.EncodeConcat(d, f.extraNonce1);
    Hex.EncodeConcat(f.tag, f.minerPubKeyHash);
  }

  /** Any well-formed hex text survives `fromHex` followed by `toHex` unchanged, whatever its length. */
  lemma ToHexOfFromHex(s: string)
    requires Hex.IsHex(s)
    ensures Hex.Encode(Serialize(SplitHex(s))) == s
  {
    var f := SplitHex(s);
    EncodeSerialize(f);
    SlicesCover(s, Hex.Encode(f.tag), Hex.Encode(f.minerPubKeyHash), Hex.Encode(f.extraNonce1),
                Hex.Encode(f.extraNonce2), Hex.Encode(f.userNonce), Hex.Encode(f.additionalData));
  }

  lemma Assoc(a: string, b: string, c: string)
    ensures a + b + c == a + (b + c)
  {
  }

  /** The six `fromHex` slices, put back together, are the whole text. */
  lemma SlicesCover(s: string, t1: string, t2: string, t3: string, t4: string, t5: string, t6: string)
    requires t1 == Text.Substr(s, 0, 40) && t2 == Text.Substr(s, 40, 40)
    requires t3 == Text.Substr(s, 80, 8) && t4 == Text.Substr(s, 88, 8)
    requires t5 == Text.Substr(s, 96, 8) && t6 == Text.SubstrFrom(s, 104)
    ensures t1 + t2 + t3 + t4 + t5 + t6 == s
  {
    var u5 := t5 + t6;
    Text.SubstrThenRest(s, 96, 8);
    assert u5 == Text.SubstrFrom(s, 96);
    var u4 := t4 + u5;
    Text.SubstrThenRest(s, 88, 8);
    assert u4 == Text.SubstrFrom(s, 88);
    var u3 := t3 + u4;
    Text.SubstrThenRest(s, 80, 8);
    assert u3 == Text.SubstrFrom(s, 80);
    var u2 := t2 + u3;
    Text.SubstrThenRest(s, 40, 40);
    assert u2 == Text.SubstrFrom(s, 40);
    Text.SubstrThenRest(s, 0, 40);
    assert t1 + u2 == Text.SubstrFrom(s, 0);
    Assoc(t1 + t2 + t3 + t4, t5, t6);
    Assoc(t1 + t2 + t3, t4, u5);
    Assoc(t1 + t2, t3, u4);
    Assoc(t1, t2, u3);
    assert Text.SubstrFrom(s, 0) == s;
  }

  /** A record of standard widths is read back field for field from its own hex. */
  lemma FromHexOfToHex(f: Fields<seq<byte>>)
    requires HasStandardWidths(f)
    ensures SplitHex(Hex.Encode(Serialize(f))) == f
  {
    var s := Hex.Encode(Serialize(f));
    EncodeSerialize(f);
    var g := SplitHex(s);
    assert Text.Substr(s, 0, 40) == Hex.Encode(f.tag);
    assert Text.Substr(s, 40, 40) == Hex.Encode(f.minerPubKeyHash);
    assert Text.Substr(s, 80, 8) == Hex.Encode(f.extraNonce1);
    assert Text.Substr(s, 88, 8) == Hex.Encode(f.extraNonce2);
    assert Text.Substr(s, 96, 8) == Hex.Encode(f.userNonce);
    assert Text.SubstrFrom(s, 104) == Hex.Encode(f.additionalData);
    Hex.DecodeEncode(f.tag);
    Hex.DecodeEncode(f.minerPubKeyHash);
    Hex.DecodeEncode(f.extraNonce1);
    Hex.DecodeEncode(f.extraNonce2);
    Hex.DecodeEncode(f.userNonce);
    Hex.DecodeEncode(f.additionalData);
  }

  /** Two records of standard widths serialise alike only when all their fields agree. */
  lemma SerializeInjective(f: Fields<seq<byte>>, g: Fields<seq<byte>>)
    requires HasStandardWidths(f) && HasStandardWidths(g)
    ensures Serialize(f) == Serialize(g) <==> f == g
  {
    if Serialize(f) == Serialize(g) {
      FromHexOfToHex(f);
      FromHexOfToHex(g);
    }
  }

  /** The record whose every byte of each field is 0x11, 0x22, ..., 0x66 in turn is cut apart as built. */
  lemma SplitHexExample()
    ensures
      var f := Fields(seq(20, _ => 0x11), seq(20, _ => 0x22), seq(4, _ => 0x33),
                      seq(4, _ => 0x44), seq(4, _ => 0x55), seq(32, _ => 0x66));
      SplitHex(Hex.Encode(Serialize(f))) == f
  {
    var f := Fields(seq(20, _ => 0x11), seq(20, _ => 0x22), seq(4, _ => 0x33),
                    seq(4, _ => 0x44), seq(4, _ => 0x55), seq(32, _ => 0x66));
    FromHexOfToHex(f);
  }
}
