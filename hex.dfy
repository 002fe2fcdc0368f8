/** encoding/hex as the service uses it: EncodeToString puts the key into the
    address, DecodeString takes it back out of the request path. */
module Hex {
  import opened Base

  /** A digit DecodeString accepts: 0-9, a-f or A-F. */
  predicate IsHexDigit(c: char) {
    '0' <= c <= '9' || 'a' <= c <= 'f' || 'A' <= c <= 'F'
  }

  /** A digit EncodeToString produces: 0-9 or a-f. */
  predicate IsLowerHexDigit(c: char) {
    '0' <= c <= '9' || 'a' <= c <= 'f'
  }

  function DigitValue(c: char): (v: nat)
    requires IsHexDigit(c)
    ensures v < 16
  {
    if '0' <= c <= '9' then c as nat - '0' as nat
    else if 'a' <= c <= 'f' then c as nat - 'a' as nat + 10
    else c as nat - 'A' as nat + 10
  }

  /** The lower-case digit for a nibble; DigitValue reads it back. */
  function DigitChar(v: nat): (c: char)
    requires v < 16
    ensures IsLowerHexDigit(c) && IsHexDigit(c) && DigitValue(c) == v
  {
    if v < 10 then ('0' as nat + v) as char else ('a' as nat + v - 10) as char
  }

  /** hex.EncodeToString: two lower-case digits per byte, high nibble first. */
  function Encode(b: seq<byte>): (s: string)
    ensures |s| == 2 * |b|
    ensures forall i :: 0 <= i < |s| ==> IsLowerHexDigit(s[i])
  {
    if b == [] then ""
    else [DigitChar(b[0] as nat / 16), DigitChar(b[0] as nat % 16)] + Encode(b[1..])
  }

  /** hex.DecodeString: each pair of digits (either case) becomes one byte. The
      flag is false when the input is malformed (a non-digit or an odd length);
      the bytes are then those decoded before the first malformed pair. */
  function Decode(s: string): (r: (seq<byte>, bool))
    ensures 2 * |r.0| <= |s|
    ensures r.1 <==> |s| % 2 == 0 && forall i :: 0 <= i < |s| ==> IsHexDigit(s[i])
    ensures r.1 ==> 2 * |r.0| == |s|
  {
    if |s| == 0 then ([], true)
    else if |s| == 1 || !IsHexDigit(s[0]) || !IsHexDigit(s[1]) then ([], false)
    else
      var rest := Decode(s[2..]);
      assert forall i :: 2 <= i < |s| ==> s[i] == s[2..][i - 2];
      ([(DigitValue(s[0]) * 16 + DigitValue(s[1])) as byte] + rest.0, rest.1)
  }

  /** Decoding what Encode produced gives back the same bytes, without error. */
  lemma {:induction false} DecodeEncode(b: seq<byte>)
    ensures Decode(Encode(b)) == (b, true)
  {
    if b != [] {
      var s := Encode(b);
      var hi, lo := b[0] as nat / 16, b[0] as nat % 16;
      assert s[2..] == Encode(b[1..]);
      DecodeEncode(b[1..]);
      assert DigitValue(s[0]) * 16 + DigitValue(s[1]) == hi * 16 + lo == b[0] as nat;
      assert b == [b[0]] + b[1..];
    }
  }

  /** What Decode returns, pair by pair: the i-th byte is the value of the i-th
      pair of digits, and when decoding fails it stops at the first pair that
      is incomplete or holds a non-digit. */
  lemma DecodePrefix(s: string)
    ensures var r := Decode(s);
            && (forall i :: 0 <= i < |r.0| ==>
                  && IsHexDigit(s[2 * i]) && IsHexDigit(s[2 * i + 1])
                  && r.0[i] as nat == DigitValue(s[2 * i]) * 16 + DigitValue(s[2 * i + 1]))
            && (!r.1 ==> 2 * |r.0| + 1 >= |s| || !IsHexDigit(s[2 * |r.0|]) || !IsHexDigit(s[2 * |r.0| + 1]))
  {
    forall i | 0 <= i < |Decode(s).0| {
      DecodeAt(s, i);
    }
    DecodeStops(s);
  }

  /** The i-th decoded byte is the value of the i-th pair of digits. */
  lemma {:induction false} DecodeAt(s: string, i: nat)
    requires i < |Decode(s).0|
    ensures IsHexDigit(s[2 * i]) && IsHexDigit(s[2 * i + 1])
    ensures Decode(s).0[i] as nat == DigitValue(s[2 * i]) * 16 + DigitValue(s[2 * i + 1])
  {
    if i > 0 {
      var rest := Decode(s[2..]);
      assert Decode(s).0 == [(DigitValue(s[0]) * 16 + DigitValue(s[1])) as byte] + rest.0;
      DecodeAt(s[2..], i - 1);
      assert s[2 * i] == s[2..][2 * (i - 1)] && s[2 * i + 1] == s[2..][2 * (i - 1) + 1];
    }
  }

  /** A failed decode stops at the first pair that is incomplete or holds a
      non-digit. */
  lemma {:induction false} DecodeStops(s: string)
    ensures var r := Decode(s);
            !r.1 ==> 2 * |r.0| + 1 >= |s| || !IsHexDigit(s[2 * |r.0|]) || !IsHexDigit(s[2 * |r.0| + 1])
  {
    if |s| >= 2 && IsHexDigit(s[0]) && IsHexDigit(s[1]) {
      var r, rest := Decode(s), Decode(s[2..]);
      DecodeStops(s[2..]);
      assert |r.0| == 1 + |rest.0| && r.1 == rest.1;
      if !r.1 && 2 * |r.0| + 1 < |s| {
        assert s[2 * |r.0|] == s[2..][2 * |rest.0|] && s[2 * |r.0| + 1] == s[2..][2 * |rest.0| + 1];
      }
    }
  }

  /** A key segment that is the hex of `b` followed by a character that ends
      decoding (a lone trailing character, or a non-digit) still decodes to
      `b`, with the error flag set. */
  lemma {:induction false} DecodeEncodeWithSuffix(b: seq<byte>, junk: string)
    requires |junk| > 0 && (|junk| == 1 || !IsHexDigit(junk[0]))
    ensures Decode(Encode(b) + junk) == (b, false)
  {
    if b != [] {
      var s := Encode(b) + junk;
      assert s[2..] == Encode(b[1..]) + junk;
      assert s[0] == Encode(b)[0] && s[1] == Encode(b)[1];
      DecodeEncodeWithSuffix(b[1..], junk);
      assert DigitValue(s[0]) * 16 + DigitValue(s[1]) == b[0] as nat;
      assert b == [b[0]] + b[1..];
    } else {
      assert Encode(b) + junk == junk;
    }
  }

  /** A lower-case segment that decodes without error to `b` is exactly
      Encode(b). (Upper-case digits and segments with trailing characters are
      other forms that decode to the same bytes.) */
  lemma {:induction false} DecodeLowerIsEncode(s: string, b: seq<byte>)
    requires forall i :: 0 <= i < |s| ==> IsLowerHexDigit(s[i])
    requires Decode(s) == (b, true)
    ensures s == Encode(b)
  {
    if |s| > 0 {
      var rest := Decode(s[2..]);
      DecodeLowerIsEncode(s[2..], rest.0);
      var x := DigitValue(s[0]) * 16 + DigitValue(s[1]);
      assert b[0] as nat == x && b[1..] == rest.0;
      assert DigitChar(x / 16) == s[0] by { LowerDigitUnique(s[0], DigitChar(x / 16)); }
      assert DigitChar(x % 16) == s[1] by { LowerDigitUnique(s[1], DigitChar(x % 16)); }
    }
  }

  lemma LowerDigitUnique(c: char, d: char)
    requires IsLowerHexDigit(c) && IsLowerHexDigit(d) && DigitValue(c) == DigitValue(d)
    ensures c == d
  {
  }
}
