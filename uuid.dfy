/** The storage token: uuid.NewV4 of github.com/satori/go.uuid and its String
    form, the 8-4-4-4-12 layout of section 3 of RFC 4122. */
module Uuid {
  import opened Base
  import Hex

  /** The number of bytes in a UUID. */
  const Size: nat := 16
  /** The length of the textual form. */
  const StringLength: nat := 36

  /** uuid.NewV4: Size random bytes, then the version nibble of byte 6 set to 4
      and the top two bits of byte 8 set to the RFC 4122 variant 10; the low
      nibble of byte 6 and the low six bits of byte 8 stay random. Fails, with
      no UUID, when crypto/rand cannot supply the bytes. */
  function NewV4(random: Option<seq<byte>>): (r: Result<seq<byte>>)
    ensures r.Ok? <==> random.Some? && Size <= |random.value|
    ensures r.Ok? ==> |r.value| == Size
    ensures r.Ok? ==> r.value[6] as int / 16 == 4 && r.value[8] as int / 64 == 2
    ensures r.Ok? ==> r.value[6] as int % 16 == random.value[6] as int % 16
                      && r.value[8] as int % 64 == random.value[8] as int % 64
    ensures r.Ok? ==> forall i :: 0 <= i < Size && i != 6 && i != 8 ==> r.value[i] == random.value[i]
  {
    match ReadFull(random, Size)
    case Err(e) => Err(e)
    case Ok(u) =>
      Ok(u[6 := (u[6] as int % 16 + 0x40) as byte][8 := (u[8] as int % 64 + 0x80) as byte])
  }

  /** A character of the textual form. */
  predicate IsUuidChar(c: char) {
    Hex.IsLowerHexDigit(c) || c == '-'
  }

  /** UUID.String: the bytes as lower-case hex in groups of 4, 2, 2, 2 and 6
      bytes, joined by dashes. */
  function Format(u: seq<byte>): (s: string)
    requires |u| == Size
    ensures |s| == StringLength
    ensures forall i :: 0 <= i < |s| ==> IsUuidChar(s[i])
    ensures s[8] == '-' && s[13] == '-' && s[18] == '-' && s[23] == '-'
  {
    var s := Hex.Encode(u[..4]) + "-" + Hex.Encode(u[4..6]) + "-" + Hex.Encode(u[6..8]) + "-"
             + Hex.Encode(u[8..10]) + "-" + Hex.Encode(u[10..]);
    assert forall i :: 0 <= i < |s| ==> IsUuidChar(s[i]) by {
      forall i | 0 <= i < |s| ensures IsUuidChar(s[i]) {
        GroupChar(u, i);
      }
    }
    s
  }

  /** Each character of the grouped form is a lower-case hex digit or a dash. */
  lemma GroupChar(u: seq<byte>, i: int)
    requires |u| == Size
    requires 0 <= i < 36
    ensures var s := Hex.Encode(u[..4]) + "-" + Hex.Encode(u[4..6]) + "-" + Hex.Encode(u[6..8]) + "-"
                     + Hex.Encode(u[8..10]) + "-" + Hex.Encode(u[10..]);
            IsUuidChar(s[i])
  {
  }

  /** The five hex groups of the textual form decode back to the UUID's bytes:
      Format loses nothing. */
  lemma {:induction false} FormatGroupsDecode(u: seq<byte>)
    requires |u| == Size
    ensures var s := Format(u);
            Hex.Decode(s[..8]).0 + Hex.Decode(s[9..13]).0 + Hex.Decode(s[14..18]).0
            + Hex.Decode(s[19..23]).0 + Hex.Decode(s[24..]).0 == u
  {
    var g0, g1, g2, g3, g4 :=
      Hex.Encode(u[..4]), Hex.Encode(u[4..6]), Hex.Encode(u[6..8]), Hex.Encode(u[8..10]), Hex.Encode(u[10..]);
    var s := Format(u);
    assert s == g0 + "-" + g1 + "-" + g2 + "-" + g3 + "-" + g4;
    assert s[..8] == g0 && s[9..13] == g1 && s[14..18] == g2 && s[19..23] == g3 && s[24..] == g4;
    Hex.DecodeEncode(u[..4]);
    Hex.DecodeEncode(u[4..6]);
    Hex.DecodeEncode(u[6..8]);
    Hex.DecodeEncode(u[8..10]);
    Hex.DecodeEncode(u[10..]);
    assert u == u[..4] + u[4..6] + u[6..8] + u[8..10] + u[10..];
  }
}
