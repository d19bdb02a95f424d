/** hexutil.Encode and hexutil.Decode: "0x" followed by two digits a byte. */
module Hex {
  import opened Models

  function Nibble(d: nat): (c: char)
    requires d < 16
    ensures IsLowerHex(c) && FromNibble(c) == Some(d)
  {
    if d < 10 then (d + '0' as int) as char else (d - 10 + 'a' as int) as char
  }

  predicate IsLowerHex(c: char) { '0' <= c <= '9' || 'a' <= c <= 'f' }

  function FromNibble(c: char): (d: Option<nat>)
    ensures d.Some? ==> d.value < 16
  {
    if '0' <= c <= '9' then Some(c as int - '0' as int)
    else if 'a' <= c <= 'f' then Some(c as int - 'a' as int + 10)
    else if 'A' <= c <= 'F' then Some(c as int - 'A' as int + 10)
    else None
  }

  function Digits(bytes: seq<Byte>): (s: string)
    ensures |s| == 2 * |bytes|
    ensures forall c <- s :: IsLowerHex(c)
  {
    if bytes == [] then ""
    else [Nibble(bytes[0] / 16), Nibble(bytes[0] % 16)] + Digits(bytes[1..])
  }

  function Undigits(s: string): (r: Option<seq<Byte>>)
    ensures r.Some? ==> |s| == 2 * |r.value|
  {
    if s == "" then Some([])
    else if |s| == 1 then None
    else
      var hi, lo, rest := FromNibble(s[0]), FromNibble(s[1]), Undigits(s[2..]);
      if hi.Some? && lo.Some? && rest.Some? then Some([16 * hi.value + lo.value] + rest.value)
      else None
  }

  function Encode(bytes: seq<Byte>): (s: string)
    ensures |s| == 2 + 2 * |bytes|
  {
    "0x" + Digits(bytes)
  }

  /** None stands for each of the errors: empty, no prefix, odd length, bad digit. */
  function Decode(s: string): (r: Option<seq<Byte>>)
    ensures r.Some? ==> |s| == 2 + 2 * |r.value|
  {
    if |s| < 2 || s[0] != '0' || (s[1] != 'x' && s[1] != 'X') then None
    else Undigits(s[2..])
  }

  predicate Canonical(s: string) {
    |s| >= 2 && s[..2] == "0x" && forall c <- s[2..] :: IsLowerHex(c)
  }

  lemma {:induction false} UndigitsDigits(bytes: seq<Byte>)
    ensures Undigits(Digits(bytes)) == Some(bytes)
  {
    if bytes != [] {
      UndigitsDigits(bytes[1..]);
      assert Digits(bytes)[2..] == Digits(bytes[1..]);
      assert 16 * (bytes[0] / 16) + bytes[0] % 16 == bytes[0];
      assert bytes == [bytes[0]] + bytes[1..];
    }
  }

  lemma DecodeEncode(bytes: seq<Byte>)
    ensures Decode(Encode(bytes)) == Some(bytes)
    ensures Canonical(Encode(bytes))
  {
    UndigitsDigits(bytes);
    assert Encode(bytes)[2..] == Digits(bytes);
  }

  lemma {:induction false} DigitsUndigits(s: string)
    requires Undigits(s).Some? && forall c <- s :: IsLowerHex(c)
    ensures Digits(Undigits(s).value) == s
  {
    if s != "" {
      DigitsUndigits(s[2..]);
      var bytes := Undigits(s).value;
      assert bytes[1..] == Undigits(s[2..]).value;
      assert s[0] in s && s[1] in s;
      assert Nibble(bytes[0] / 16) == s[0] && Nibble(bytes[0] % 16) == s[1];
      assert s == [s[0], s[1]] + s[2..];
    }
  }

  /** Decoding accepts upper case, so it loses the spelling: it is undone exactly on the
      strings Encode writes. */
  lemma EncodeDecode(s: string)
    requires Decode(s).Some?
    ensures Encode(Decode(s).value) == s <==> Canonical(s)
  {
    if Canonical(s) {
      DigitsUndigits(s[2..]);
      assert s == s[..2] + s[2..];
    } else if Encode(Decode(s).value) == s {
      DecodeEncode(Decode(s).value);
    }
  }

  const DIGITS: string := "0123456789abcdef"

  lemma {:induction false} DigitsAt(bytes: seq<Byte>, i: nat)
    requires i < |bytes|
    ensures Digits(bytes)[2 * i] == DIGITS[bytes[i] / 16] && Digits(bytes)[2 * i + 1] == DIGITS[bytes[i] % 16]
  {
    if i > 0 {
      DigitsAt(bytes[1..], i - 1);
    }
  }

  /** Two digits a byte, the high half first. */
  lemma EncodeAt(bytes: seq<Byte>, i: nat)
    requires i < |bytes|
    ensures Encode(bytes)[..2] == "0x"
    ensures Encode(bytes)[2 + 2 * i] == DIGITS[bytes[i] / 16] && Encode(bytes)[3 + 2 * i] == DIGITS[bytes[i] % 16]
  {
    DigitsAt(bytes, i);
  }

  predicate IsHex(c: char) { IsLowerHex(c) || 'A' <= c <= 'F' }

  predicate AllHex(s: string) { forall i :: 0 <= i < |s| ==> IsHex(s[i]) }

  lemma {:induction false} UndigitsIff(s: string)
    ensures Undigits(s).Some? <==> |s| % 2 == 0 && AllHex(s)
  {
    if |s| >= 2 {
      UndigitsIff(s[2..]);
      assert forall i :: 2 <= i < |s| ==> s[i] == s[2..][i - 2];
    }
  }

  lemma {:induction false} UndigitsAnyCase(s: string)
    ensures Undigits(ToLower(s)) == Undigits(s)
  {
    if |s| >= 2 {
      UndigitsAnyCase(s[2..]);
      assert ToLower(s)[2..] == ToLower(s[2..]);
    }
  }

  /** What decodes, and that case does not matter. */
  lemma DecodeIff(s: string)
    ensures Decode(s).Some? <==>
      |s| >= 2 && |s| % 2 == 0 && s[0] == '0' && (s[1] == 'x' || s[1] == 'X') && AllHex(s[2..])
    ensures Decode(ToLower(s)) == Decode(s)
  {
    if |s| >= 2 {
      UndigitsIff(s[2..]);
      UndigitsAnyCase(s[2..]);
      assert ToLower(s)[2..] == ToLower(s[2..]);
    }
  }

  /** The ids the Ethereum cacher writes: the encoding of 32 bytes. */
  predicate IsEthId(id: string) {
    Canonical(id) && Decode(id).Some? && |Decode(id).value| == 32
  }

  lemma EthIdOfHash(hash: seq<Byte>)
    requires |hash| == 32
    ensures IsEthId(Encode(hash)) && Decode(Encode(hash)) == Some(hash)
  {
    DecodeEncode(hash);
  }
}
