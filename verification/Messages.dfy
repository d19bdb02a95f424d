/** The texts a validator signs (signer/eth.go, signer/waves.go). */
module Messages {
  import opened Models
  import Decimal
  import Hex

  predicate IsAscii(s: string) { forall i :: 0 <= i < |s| ==> s[i] as int < 128 }

  function Ascii(s: string): (b: seq<Byte>)
    requires IsAscii(s)
    ensures |b| == |s|
    ensures forall i :: 0 <= i < |s| ==> b[i] == s[i] as int
  {
    if s == "" then [] else [s[0] as int] + Ascii(s[1..])
  }

  /** The request id's bytes followed by the status byte. */
  function FormatEthMsg(requestId: string, status: Status): Option<seq<Byte>> {
    match Hex.Decode(requestId)
    case None => None
    case Some(id) => Some(id + [status % 256])
  }

  // 0x19, then the text "Ethereum Signed Message:" and a newline
  const PREFIX: seq<Byte> := [
    0x19, 0x45, 0x74, 0x68, 0x65, 0x72, 0x65, 0x75, 0x6d, 0x20, 0x53, 0x69, 0x67,
    0x6e, 0x65, 0x64, 0x20, 0x4d, 0x65, 0x73, 0x73, 0x61, 0x67, 0x65, 0x3a, 0x0a
  ]

  /** The bytes that are hashed and signed: the version byte and text of ERC-191 version
      0x45, the decimal length, the message. */
  function Preimage(message: seq<Byte>): seq<Byte> {
    PREFIX + Ascii(Decimal.Itoa(|message|)) + message
  }

  /** What is signed to vote for an Ethereum request, byte for byte: the prefix, the length 33
      in digits, the hash and the status Success. */
  ghost function EthVote(hash: seq<Byte>): seq<Byte> {
    [ 0x19, 0x45, 0x74, 0x68, 0x65, 0x72, 0x65, 0x75, 0x6d, 0x20, 0x53, 0x69, 0x67,
      0x6e, 0x65, 0x64, 0x20, 0x4d, 0x65, 0x73, 0x73, 0x61, 0x67, 0x65, 0x3a, 0x0a ]
    + [0x33, 0x33] + hash + [3]
  }

  lemma LengthBytes(message: seq<Byte>)
    requires |message| == 33
    ensures Ascii(Decimal.Itoa(|message|)) == [0x33, 0x33]
  {
    Decimal.ItoaDigits(3, 3);
    Decimal.ItoaDigits(0, 3);
    var text := Decimal.Itoa(33);
    assert |text| == 2 && text[0] == '3' && text[1] == '3';
  }

  lemma VoteBytes(id: string)
    requires Hex.Decode(id).Some? && |Hex.Decode(id).value| == 32
    ensures FormatEthMsg(id, SUCCESS).Some?
    ensures Preimage(FormatEthMsg(id, SUCCESS).value) == EthVote(Hex.Decode(id).value)
  {
    var hash, message := Hex.Decode(id).value, FormatEthMsg(id, SUCCESS).value;
    assert message == hash + [3];
    LengthBytes(message);
    assert PREFIX + [0x33, 0x33] + (hash + [3]) == PREFIX + [0x33, 0x33] + hash + [3];
  }

  /** And for a Waves request. */
  lemma WavesVoteText(id: string)
    ensures FormatWavesMsg(id, SUCCESS) == id + "_3"
  {
    Decimal.ItoaDigits(0, 3);
  }

  /** No separator stands between the length and the message, yet nothing is ambiguous:
      n plus the number of digits of n grows with n, so the total length fixes n. */
  lemma PreimageInjective(m1: seq<Byte>, m2: seq<Byte>)
    ensures Preimage(m1) == Preimage(m2) <==> m1 == m2
  {
    if Preimage(m1) == Preimage(m2) {
      if |m1| < |m2| {
        Decimal.ItoaLengthMonotone(|m1|, |m2|);
      } else if |m2| < |m1| {
        Decimal.ItoaLengthMonotone(|m2|, |m1|);
      }
      assert |m1| == |m2|;
      var k := |PREFIX| + |Decimal.Itoa(|m1|)|;
      assert m1 == Preimage(m1)[k..] == Preimage(m2)[k..] == m2;
    }
  }

  /** Two requests in two statuses are signed over one preimage only if they are the same. */
  lemma EthSignatureBindsRequest(id1: string, status1: Status, id2: string, status2: Status)
    requires FormatEthMsg(id1, status1).Some? && FormatEthMsg(id2, status2).Some?
    ensures Preimage(FormatEthMsg(id1, status1).value) == Preimage(FormatEthMsg(id2, status2).value)
       <==> Hex.Decode(id1) == Hex.Decode(id2) && status1 % 256 == status2 % 256
    ensures Hex.Canonical(id1) && Hex.Canonical(id2) && 0 <= status1 < 256 && 0 <= status2 < 256 ==>
       (Preimage(FormatEthMsg(id1, status1).value) == Preimage(FormatEthMsg(id2, status2).value)
        <==> id1 == id2 && status1 == status2)
  {
    var m1, m2 := FormatEthMsg(id1, status1).value, FormatEthMsg(id2, status2).value;
    PreimageInjective(m1, m2);
    assert m1[..|m1| - 1] == Hex.Decode(id1).value && m2[..|m2| - 1] == Hex.Decode(id2).value;
    assert m1[|m1| - 1] == status1 % 256 && m2[|m2| - 1] == status2 % 256;
    Hex.EncodeDecode(id1);
    Hex.EncodeDecode(id2);
  }

  function FormatWavesMsg(requestId: string, status: Status): string {
    requestId + "_" + Decimal.ItoaInt(status)
  }

  /** The position after the last underscore, 0 when there is none. */
  function AfterLast(s: string): (k: nat)
    ensures k <= |s|
    ensures k > 0 ==> s[k - 1] == '_'
    ensures forall i :: k <= i < |s| ==> s[i] != '_'
  {
    if s == "" then 0
    else if s[|s| - 1] == '_' then |s|
    else AfterLast(s[..|s| - 1])
  }

  function ParseWavesMsg(msg: string): Option<(string, Status)> {
    var k := AfterLast(msg);
    if k == 0 then None
    else
      match Decimal.ParseInt(msg[k..])
      case NotANumber => None
      case Number(status) => Some((msg[..k - 1], status))
  }

  /** The last underscore is always the separator, so the text can be read back, whatever
      underscores the id holds. */
  lemma WavesMsgRoundTrip(requestId: string, status: Status)
    ensures ParseWavesMsg(FormatWavesMsg(requestId, status)) == Some((requestId, status))
  {
    var number := Decimal.ItoaInt(status);
    var msg := FormatWavesMsg(requestId, status);
    var k := |requestId| + 1;
    assert msg[k..] == number && msg[..k - 1] == requestId && msg[k - 1] == '_';
    forall i | k <= i < |msg| ensures msg[i] != '_' {
      assert msg[i] == number[i - k];
    }
    var j := AfterLast(msg);
    assert j >= k;
    assert j == k;
    Decimal.ParseIntItoa(status);
  }

  lemma WavesMsgInjective(id1: string, status1: Status, id2: string, status2: Status)
    ensures FormatWavesMsg(id1, status1) == FormatWavesMsg(id2, status2) <==> id1 == id2 && status1 == status2
  {
    WavesMsgRoundTrip(id1, status1);
    WavesMsgRoundTrip(id2, status2);
  }
}
