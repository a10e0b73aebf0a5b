/**
 * `BoostPowMetadataModel`: a Boost POW metadata record held as six mutable
 * byte fields. Construction, serialisation, export and hashing only read the
 * fields; the three text accessors reverse their field in place, as Node's
 * `Buffer.reverse()` does, so they change what the record serialises to.
 */
module BoostPowMetadata {
  import opened Seqs
  import Hex
  import Text
  import Layout

  /** A SHA-256 digest. */
  type Digest = s: seq<byte> | |s| == 32 witness seq(32, _ => 0)

  /** `bsv.crypto.Hash.sha256sha256`, supplied by the caller. */
  type DoubleSha256 = seq<byte> -> Digest

  /** `Buffer.toString("utf8")`, supplied by the caller. */
  type Utf8Decoder = seq<byte> -> string

  /** `BoostUtils.createBufferAndPad(hex, width)`, supplied by the caller. */
  type Pad = (string, nat) -> seq<byte>

  /** All that is assumed of the padding helper: well-formed hex of at most `width` bytes gives exactly `width` bytes. */
  ghost predicate PadContract(pad: Pad) {
    forall hex: string, width: nat :: Hex.IsHex(hex) && |hex| <= 2 * width ==> |pad(hex, width)| == width
  }

  /** One entry of `toObject()`: the field's hex with its digit pairs in reverse order. */
  function ExportField(b: seq<byte>): (r: string)
    ensures r == Hex.Encode(Reverse(b))
    ensures Text.ReversePairs(r) == Hex.Encode(b)
    ensures b == [] ==> r == ""
  {
    Text.ReversePairsEncode(b);
    Text.ReversePairsEncode(Reverse(b));
    ReverseInvolution(b);
    Text.ReversePairs(Hex.Encode(b))
  }

  class BoostPowMetadataModel {
    var tag: seq<byte>
    var minerPubKeyHash: seq<byte>
    var extraNonce1: seq<byte>
    var extraNonce2: seq<byte>
    var userNonce: seq<byte>
    var additionalData: seq<byte>

    /** The private constructor: stores the six buffers as given. */
    constructor (tag: seq<byte>, minerPubKeyHash: seq<byte>, extraNonce1: seq<byte>,
                 extraNonce2: seq<byte>, userNonce: seq<byte>, additionalData: seq<byte>)
      ensures this.tag == tag && this.minerPubKeyHash == minerPubKeyHash
      ensures this.extraNonce1 == extraNonce1 && this.extraNonce2 == extraNonce2
      ensures this.userNonce == userNonce && this.additionalData == additionalData
    {
      this.tag := tag;
      this.minerPubKeyHash := minerPubKeyHash;
      this.extraNonce1 := extraNonce1;
      this.extraNonce2 := extraNonce2;
      this.userNonce := userNonce;
      this.additionalData := additionalData;
    }

    /** The six fields as they are stored now. */
    function Contents(): (f: Layout.Fields<seq<byte>>)
      reads this
    {
      Layout.Fields(tag, minerPubKeyHash, extraNonce1, extraNonce2, userNonce, additionalData)
    }

    predicate HasStandardWidths()
      reads this
    {
      Layout.HasStandardWidths(Contents())
    }

    /** `fromObject`: each hex field padded to its width by the padding helper. */
    static method FromObject(params: Layout.Fields<string>, pad: Pad) returns (m: BoostPowMetadataModel)
      ensures fresh(m)
      ensures m.Contents() == Layout.Fields(
        pad(params.tag, 20), pad(params.minerPubKeyHash, 20), pad(params.extraNonce1, 4),
        pad(params.extraNonce2, 4), pad(params.userNonce, 4), pad(params.additionalData, 32))
      ensures PadContract(pad)
              && Hex.IsHex(params.tag) && Hex.IsHex(params.minerPubKeyHash)
              && Hex.IsHex(params.extraNonce1) && Hex.IsHex(params.extraNonce2)
              && Hex.IsHex(params.userNonce) && Hex.IsHex(params.additionalData)
              && |params.tag| <= 40 && |params.minerPubKeyHash| <= 40
              && |params.extraNonce1| <= 8 && |params.extraNonce2| <= 8 && |params.userNonce| <= 8
              && |params.additionalData| <= 64
              ==> m.HasStandardWidths()
    {
      m := new BoostPowMetadataModel(
        pad(params.tag, 20),
        pad(params.minerPubKeyHash, 20),
        pad(params.extraNonce1, 4),
        pad(params.extraNonce2, 4),
        pad(params.userNonce, 4),
        pad(params.additionalData, 32));
    }

    /** `fromBuffer`: the buffers are stored unchanged, with no padding and no width check. */
    static method FromBuffer(params: Layout.Fields<seq<byte>>) returns (m: BoostPowMetadataModel)
      ensures fresh(m) && m.Contents() == params
    {
      m := new BoostPowMetadataModel(
        params.tag, params.minerPubKeyHash, params.extraNonce1,
        params.extraNonce2, params.userNonce, params.additionalData);
    }

    /** `fromHex`: the record whose fields are the hex slices at the fixed offsets. */
    static method FromHex(str: string) returns (m: BoostPowMetadataModel)
      requires Hex.IsHex(str)
      ensures fresh(m) && m.Contents() == Layout.SplitHex(str)
      ensures m.ToHex() == str
      ensures |str| == 2 * Layout.SerializedLength ==> m.HasStandardWidths()
    {
      var f := Layout.SplitHex(str);
      m := new BoostPowMetadataModel(
        f.tag, f.minerPubKeyHash, f.extraNonce1, f.extraNonce2, f.userNonce, f.additionalData);
      Layout.ToHexOfFromHex(str);
    }

    /** `fromString`: the same as `fromHex`. */
    static method FromString(str: string) returns (m: BoostPowMetadataModel)
      requires Hex.IsHex(str)
      ensures fresh(m) && m.Contents() == Layout.SplitHex(str)
      ensures m.ToHex() == str
    {
      m := FromHex(str);
    }

    function GetTag(): (r: seq<byte>) reads this { tag }
    function GetMinerPubKeyHash(): (r: seq<byte>) reads this { minerPubKeyHash }
    function GetExtraNonce1(): (r: seq<byte>) reads this { extraNonce1 }
    function GetExtraNonce2(): (r: seq<byte>) reads this { extraNonce2 }
    function GetUserNonce(): (r: seq<byte>) reads this { userNonce }
    function GetAdditionalData(): (r: seq<byte>) reads this { additionalData }

    /** `getTagUtf8`: reverses the stored tag in place, then reads it as NUL-free text. */
    method GetTagUtf8(utf8: Utf8Decoder) returns (text: string)
      modifies this
      ensures tag == Reverse(old(tag))
      ensures minerPubKeyHash == old(minerPubKeyHash) && extraNonce1 == old(extraNonce1)
      ensures extraNonce2 == old(extraNonce2) && userNonce == old(userNonce)
      ensures additionalData == old(additionalData)
      ensures text == Text.RemoveNuls(utf8(Reverse(old(tag))))
    {
      tag := Reverse(tag);
      text := Text.TrimBufferString(Hex.Encode(tag), true, utf8);
      Hex.DecodeEncode(tag);
    }

    /** `getMinerPubKeyHashUtf8`: only the hex of the stored bytes; nothing is reversed. */
    function GetMinerPubKeyHashUtf8(): (r: string)
      reads this
      ensures Hex.IsHex(r) && Hex.Decode(r) == minerPubKeyHash
    {
      Hex.DecodeEncode(minerPubKeyHash);
      Hex.Encode(minerPubKeyHash)
    }

    /** `getUserNonceUtf8`: reverses the stored user nonce in place, then reads it as NUL-free text. */
    method GetUserNonceUtf8(utf8: Utf8Decoder) returns (text: string)
      modifies this
      ensures userNonce == Reverse(old(userNonce))
      ensures tag == old(tag) && minerPubKeyHash == old(minerPubKeyHash)
      ensures extraNonce1 == old(extraNonce1) && extraNonce2 == old(extraNonce2)
      ensures additionalData == old(additionalData)
      ensures text == Text.RemoveNuls(utf8(Reverse(old(userNonce))))
    {
      userNonce := Reverse(userNonce);
      text := Text.TrimBufferString(Hex.Encode(userNonce), true, utf8);
      Hex.DecodeEncode(userNonce);
    }

    /** `getAdditionalDataUtf8`: reverses the stored additional data in place, then reads it as NUL-free text. */
    method GetAdditionalDataUtf8(utf8: Utf8Decoder) returns (text: string)
      modifies this
      ensures additionalData == Reverse(old(additionalData))
      ensures tag == old(tag) && minerPubKeyHash == old(minerPubKeyHash)
      ensures extraNonce1 == old(extraNonce1) && extraNonce2 == old(extraNonce2)
      ensures userNonce == old(userNonce)
      ensures text == Text.RemoveNuls(utf8(Reverse(old(additionalData))))
    {
      additionalData := Reverse(additionalData);
      text := Text.TrimBufferString(Hex.Encode(additionalData), true, utf8);
      Hex.DecodeEncode(additionalData);
    }

    /** `toBuffer`: the six fields back to back, 84 bytes for a record of standard widths. */
    function ToBuffer(): (r: seq<byte>)
      reads this
      ensures |r| == |tag| + |minerPubKeyHash| + |extraNonce1| + |extraNonce2| + |userNonce| + |additionalData|
      ensures HasStandardWidths() ==> |r| == Layout.SerializedLength
      ensures r[..|tag|] == tag && r[|r| - |additionalData|..] == additionalData
      ensures r == Layout.Serialize(Contents())
    {
      Layout.Serialize(Contents())
    }

    /** `toHex`: the hex of `toBuffer()`, from which `fromHex` recovers a standard-width record exactly. */
    function ToHex(): (r: string)
      reads this
      ensures Hex.IsHex(r) && Hex.Decode(r) == ToBuffer()
      ensures HasStandardWidths() ==> |r| == 2 * Layout.SerializedLength && Layout.SplitHex(r) == Contents()
    {
      Hex.DecodeEncode(ToBuffer());
      if HasStandardWidths() then Layout.FromHexOfToHex(Contents()); Hex.Encode(ToBuffer())
      else Hex.Encode(ToBuffer())
    }

    /** `toString`: concatenates and hex-encodes on its own, and agrees with `toHex`. */
    function ToString(): (r: string)
      reads this
      ensures r == ToHex()
    {
      Hex.Encode(tag + minerPubKeyHash + extraNonce1 + extraNonce2 + userNonce + additionalData)
    }

    /** `getCoinbaseString`: the same text as `toString` and `toHex`. */
    function GetCoinbaseString(): (r: string)
      reads this
      ensures r == ToHex()
    {
      ToString()
    }

    /** `hash`: the hex of the reversed double SHA-256 of the serialised record. */
    function Hash(sha256sha256: DoubleSha256): (r: string)
      reads this
      ensures Hex.IsHex(r) && |r| == 64
      ensures Hex.Decode(r) == HashAsBuffer(sha256sha256)
    {
      Hex.DecodeEncode(Reverse(sha256sha256(ToBuffer())));
      Hex.Encode(Reverse(sha256sha256(ToBuffer())))
    }

    /** `hashAsBuffer`: the double SHA-256 of `toBuffer()`, digest bytes reversed. */
    function HashAsBuffer(sha256sha256: DoubleSha256): (r: seq<byte>)
      reads this
      ensures |r| == 32
      ensures Reverse(r) == sha256sha256(ToBuffer())
    {
      ReverseInvolution(sha256sha256(ToBuffer()));
      Reverse(sha256sha256(ToBuffer()))
    }

    /** `toObject`: each field's hex with its digit pairs reversed, an empty field giving "". */
    function ToObject(): (r: Layout.Fields<string>)
      reads this
      ensures r == Layout.Fields(
        Hex.Encode(Reverse(tag)), Hex.Encode(Reverse(minerPubKeyHash)),
        Hex.Encode(Reverse(extraNonce1)), Hex.Encode(Reverse(extraNonce2)),
        Hex.Encode(Reverse(userNonce)), Hex.Encode(Reverse(additionalData)))
      ensures Text.ReversePairs(r.tag) == Hex.Encode(tag)
      ensures Text.ReversePairs(r.minerPubKeyHash) == Hex.Encode(minerPubKeyHash)
      ensures Text.ReversePairs(r.extraNonce1) == Hex.Encode(extraNonce1)
      ensures Text.ReversePairs(r.extraNonce2) == Hex.Encode(extraNonce2)
      ensures Text.ReversePairs(r.userNonce) == Hex.Encode(userNonce)
      ensures Text.ReversePairs(r.additionalData) == Hex.Encode(additionalData)
    {
      Layout.Fields(
        ExportField(tag), ExportField(minerPubKeyHash), ExportField(extraNonce1),
        ExportField(extraNonce2), ExportField(userNonce), ExportField(additionalData))
    }
  }

  /**
   * Reversing one field in place leaves the serialisation as it was exactly
   * when that field is a palindrome; otherwise `toBuffer()` and with it the
   * hash input change.
   */
  lemma ReversedTagChangesSerialization(f: Layout.Fields<seq<byte>>)
    ensures Layout.Serialize(f.(tag := Reverse(f.tag))) == Layout.Serialize(f) <==> Reverse(f.tag) == f.tag
  {
    var g := f.(tag := Reverse(f.tag));
    if Layout.Serialize(g) == Layout.Serialize(f) {
      assert Layout.Serialize(g)[..|g.tag|] == g.tag;
    }
  }

  /** The hash is fixed by the six stored fields: records holding the same bytes hash alike. */
  lemma HashDependsOnContents(a: BoostPowMetadataModel, b: BoostPowMetadataModel, sha256sha256: DoubleSha256)
    requires a.Contents() == b.Contents()
    ensures a.HashAsBuffer(sha256sha256) == b.HashAsBuffer(sha256sha256)
    ensures a.Hash(sha256sha256) == b.Hash(sha256sha256)
  {
    assert a.ToBuffer() == b.ToBuffer();
  }

  /**
   * Reading the tag's text twice: the storage is back as it was, and the
   * second call reads the bytes in their original order.
   */
  method TagTextTwice(m: BoostPowMetadataModel, utf8: Utf8Decoder) returns (first: string, second: string)
    modifies m
    ensures m.Contents() == old(m.Contents())
    ensures first == Text.RemoveNuls(utf8(Reverse(old(m.tag))))
    ensures second == Text.RemoveNuls(utf8(old(m.tag)))
  {
    first := m.GetTagUtf8(utf8);
    second := m.GetTagUtf8(utf8);
    ReverseInvolution(old(m.tag));
  }

  /** Reading the user nonce's text twice gives back the original storage. */
  method UserNonceTextTwice(m: BoostPowMetadataModel, utf8: Utf8Decoder) returns (first: string, second: string)
    modifies m
    ensures m.Contents() == old(m.Contents())
    ensures first == Text.RemoveNuls(utf8(Reverse(old(m.userNonce))))
    ensures second == Text.RemoveNuls(utf8(old(m.userNonce)))
  {
    first := m.GetUserNonceUtf8(utf8);
    second := m.GetUserNonceUtf8(utf8);
    ReverseInvolution(old(m.userNonce));
  }

  /** Reading the additional data's text twice gives back the original storage. */
  method AdditionalDataTextTwice(m: BoostPowMetadataModel, utf8: Utf8Decoder) returns (first: string, second: string)
    modifies m
    ensures m.Contents() == old(m.Contents())
    ensures first == Text.RemoveNuls(utf8(Reverse(old(m.additionalData))))
    ensures second == Text.RemoveNuls(utf8(old(m.additionalData)))
  {
    first := m.GetAdditionalDataUtf8(utf8);
    second := m.GetAdditionalDataUtf8(utf8);
    ReverseInvolution(old(m.additionalData));
  }
}
