/**
 * Base16 (section 8 of RFC 4648) with the lowercase alphabet, as used to
 * turn a digest into the text of the next message.
 */
module Hex {
  import opened Common

  const LOWER_ALPHABET: string := "0123456789abcdef"

  /** The character for one nibble. */
  function Digit(n: int): (c: char)
    requires 0 <= n < 16
    ensures c as int < 128
  {
    if n < 10 then (48 + n) as char else (87 + n) as char
  }

  lemma DigitIsLowercaseAlphabet(n: int)
    requires 0 <= n < 16
    ensures Digit(n) == LOWER_ALPHABET[n]
  {
  }

  /** The nibble a lowercase hex character stands for, if any. */
  function DigitValue(c: char): (r: Option<int>)
    ensures r.Some? ==> 0 <= r.value < 16 && Digit(r.value) == c
    ensures r.None? ==> forall n :: 0 <= n < 16 ==> Digit(n) != c
  {
    if '0' <= c <= '9' then Some(c as int - 48)
    else if 'a' <= c <= 'f' then Some(c as int - 87)
    else None
  }

  /** Two characters per byte, high nibble first. */
  function Encode(bs: seq<Byte>): (s: string)
    ensures |s| == 2 * |bs|
  {
    if bs == [] then "" else [Digit(bs[0] / 16), Digit(bs[0] % 16)] + Encode(bs[1..])
  }

  /** The encoding is twice as long as the bytes; byte i gives characters 2i and 2i+1; all of it is ASCII. */
  lemma {:induction false} EncodeLayout(bs: seq<Byte>)
    ensures |Encode(bs)| == 2 * |bs|
    ensures forall i :: 0 <= i < |bs| ==>
              Encode(bs)[2 * i] == Digit(bs[i] / 16) && Encode(bs)[2 * i + 1] == Digit(bs[i] % 16)
    ensures forall i :: 0 <= i < |Encode(bs)| ==> Encode(bs)[i] as int < 128
  {
    if bs != [] {
      EncodeLayout(bs[1..]);
      var s := Encode(bs);
      assert s == [Digit(bs[0] / 16), Digit(bs[0] % 16)] + Encode(bs[1..]);
      forall i | 1 <= i < |bs|
        ensures s[2 * i] == Digit(bs[i] / 16) && s[2 * i + 1] == Digit(bs[i] % 16)
      {
        assert s[2 * i] == Encode(bs[1..])[2 * (i - 1)];
        assert s[2 * i + 1] == Encode(bs[1..])[2 * (i - 1) + 1];
        assert bs[1..][i - 1] == bs[i];
      }
    }
  }

  /** The inverse of Encode: None on odd length or on a character outside the lowercase alphabet. */
  function Decode(s: string): (r: Option<seq<Byte>>)
    ensures r.Some? ==> |s| == 2 * |r.value|
    decreases |s|
  {
    if s == [] then Some([])
    else if |s| == 1 then None
    else
      match (DigitValue(s[0]), DigitValue(s[1]), Decode(s[2..]))
      case (Some(hi), Some(lo), Some(rest)) => Some([hi * 16 + lo] + rest)
      case _ => None
  }

  lemma {:induction false} DecodeEncode(bs: seq<Byte>)
    ensures Decode(Encode(bs)) == Some(bs)
  {
    if bs != [] {
      var s := Encode(bs);
      EncodeLayout(bs);
      assert s[2..] == Encode(bs[1..]);
      DecodeEncode(bs[1..]);
      assert bs == [bs[0] / 16 * 16 + bs[0] % 16] + bs[1..];
    }
  }

  lemma {:induction false} EncodeDecode(s: string)
    requires Decode(s).Some?
    ensures Encode(Decode(s).value) == s
    decreases |s|
  {
    if s != [] {
      EncodeDecode(s[2..]);
      EncodeLayout(Decode(s).value);
      var bs := Decode(s).value;
      var hi, lo := DigitValue(s[0]).value, DigitValue(s[1]).value;
      assert bs[0] / 16 == hi && bs[0] % 16 == lo;
      assert bs[1..] == Decode(s[2..]).value;
      assert s == [s[0], s[1]] + s[2..];
    }
  }

  /** Distinct byte strings have distinct encodings. */
  lemma EncodeInjective(a: seq<Byte>, b: seq<Byte>)
    requires Encode(a) == Encode(b)
    ensures a == b
  {
    DecodeEncode(a);
    DecodeEncode(b);
  }
}
