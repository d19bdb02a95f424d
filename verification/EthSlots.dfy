/** The admin-ordered r, s and v arrays of an Ethereum submission (signer/eth.go:62-79). */
module EthSlots {
  import opened Models
  import Hex

  datatype Slot = Slot(r: seq<Byte>, s: seq<Byte>, v: Byte)

  function Zeros(n: nat): (z: seq<Byte>)
    ensures |z| == n && forall i :: 0 <= i < n ==> z[i] == 0
  {
    if n == 0 then [] else [0] + Zeros(n - 1)
  }

  /** The halves fit the contract's 32-byte words. */
  predicate Fits(slot: Slot) { |slot.r| == 32 && |slot.s| == 32 }

  function EmptySlot(): (slot: Slot)
    ensures Fits(slot) && slot.v == 0 && forall i :: 0 <= i < 32 ==> slot.r[i] == 0 && slot.s[i] == 0
  {
    Slot(Zeros(32), Zeros(32), 0)
  }

  /** The bytes of a stored signature, when it belongs to this key and decodes. */
  function Bytes(sign: Sign, pubKey: string): Option<seq<Byte>> {
    if sign.validatorPubKey == pubKey then Hex.Decode(sign.sign) else None
  }

  /** The last row that matches and decodes wins. */
  function LastBytes(signs: seq<Sign>, pubKey: string): (b: Option<seq<Byte>>) {
    if signs == [] then None
    else
      var last := signs[|signs| - 1];
      if Bytes(last, pubKey).Some? then Bytes(last, pubKey) else LastBytes(signs[..|signs| - 1], pubKey)
  }

  lemma {:induction false} LastBytesIsLast(signs: seq<Sign>, pubKey: string) returns (j: int)
    ensures LastBytes(signs, pubKey).None? ==> j == -1
    ensures LastBytes(signs, pubKey).Some? ==>
      0 <= j < |signs| && Bytes(signs[j], pubKey) == LastBytes(signs, pubKey)
    ensures forall k :: j < k < |signs| ==> Bytes(signs[k], pubKey).None?
  {
    if signs == [] {
      j := -1;
    } else if Bytes(signs[|signs| - 1], pubKey).Some? {
      j := |signs| - 1;
    } else {
      j := LastBytesIsLast(signs[..|signs| - 1], pubKey);
    }
  }

  /** The sum wraps in a byte. */
  function RecoveryByte(b: Byte): Byte {
    var n: int := b;
    (n + 27) % 256
  }

  function SlotOf(bytes: seq<Byte>): (slot: Slot)
    requires |bytes| >= 65
    ensures Fits(slot) && slot.r + slot.s == bytes[..64]
  {
    Slot(bytes[..32], bytes[32..64], RecoveryByte(bytes[64]))
  }

  /** Slicing a signature of fewer than 65 bytes panics. */
  predicate TooShort(sign: Sign, pubKey: string) {
    Bytes(sign, pubKey).Some? && |Bytes(sign, pubKey).value| < 65
  }

  ghost predicate AllLong(signs: seq<Sign>, pubKey: string) {
    forall sign <- signs :: !TooShort(sign, pubKey)
  }

  function SlotFor(signs: seq<Sign>, pubKey: string): (slot: Slot)
    requires AllLong(signs, pubKey)
    ensures Fits(slot)
  {
    match LastBytes(signs, pubKey)
    case None => EmptySlot()
    case Some(bytes) => if |bytes| >= 65 then SlotOf(bytes) else EmptySlot()
  }

  /** The slots of a submission: one per admin, in order. */
  ghost function Slots(signs: seq<Sign>, admins: seq<string>): (slots: seq<Slot>)
    ensures |slots| == |admins| && forall i :: 0 <= i < |admins| ==> Fits(slots[i])
    ensures forall i :: 0 <= i < |admins| && AllLong(signs, admins[i]) ==> slots[i] == SlotFor(signs, admins[i])
  {
    seq(|admins|, i requires 0 <= i < |admins| =>
      if AllLong(signs, admins[i]) then SlotFor(signs, admins[i]) else EmptySlot())
  }

  /** Some row has a short signature under the key of some admin. */
  ghost predicate SomeShort(rows: seq<Sign>, admins: seq<string>) {
    exists i :: 0 <= i < |admins| && !AllLong(rows, admins[i])
  }

  /** One more row: a match that decodes takes the place of what was kept. */
  lemma OneRowMore(signs: seq<Sign>, j: nat, pubKey: string)
    requires j < |signs| && AllLong(signs[..j], pubKey) && !TooShort(signs[j], pubKey)
    ensures AllLong(signs[..j + 1], pubKey)
    ensures SlotFor(signs[..j + 1], pubKey) ==
      if Bytes(signs[j], pubKey).None? then SlotFor(signs[..j], pubKey) else SlotOf(Bytes(signs[j], pubKey).value)
  {
    assert signs[..j + 1] == signs[..j] + [signs[j]];
    assert signs[..j + 1][..j] == signs[..j];
  }

  method FillSlot(i: nat, pubKey: string, signs: seq<Sign>, r: array<seq<Byte>>, s: array<seq<Byte>>, v: array<Byte>)
    returns (panicked: bool)
    requires i < 5 && r != s && r.Length == s.Length == v.Length == 5
    requires Slot(r[i], s[i], v[i]) == EmptySlot()
    modifies r, s, v
    ensures panicked <==> !AllLong(signs, pubKey)
    ensures !panicked ==> Slot(r[i], s[i], v[i]) == SlotFor(signs, pubKey) && Fits(Slot(r[i], s[i], v[i]))
    ensures forall k :: 0 <= k < 5 && k != i ==> r[k] == old(r[k]) && s[k] == old(s[k]) && v[k] == old(v[k])
  {
    for j := 0 to |signs|
      invariant AllLong(signs[..j], pubKey) && Slot(r[i], s[i], v[i]) == SlotFor(signs[..j], pubKey)
      invariant forall k :: 0 <= k < 5 && k != i ==> r[k] == old(r[k]) && s[k] == old(s[k]) && v[k] == old(v[k])
    {
      var sign := signs[j];
      if sign.validatorPubKey == pubKey {
        var bytesSign := Hex.Decode(sign.sign);
        if bytesSign.None? {
          OneRowMore(signs, j, pubKey);
          continue;
        }
        if |bytesSign.value| < 65 {
          assert sign in signs && TooShort(sign, pubKey);
          return true;
        }
        r[i] := bytesSign.value[..32];
        s[i] := bytesSign.value[32..64];
        v[i] := RecoveryByte(bytesSign.value[64]);
      }
      OneRowMore(signs, j, pubKey);
    }
    assert signs[..|signs|] == signs;
    return false;
  }

  method FillSlots(pubKeyOracles: seq<string>, signs: seq<Sign>)
    returns (panicked: bool, r: array<seq<Byte>>, s: array<seq<Byte>>, v: array<Byte>)
    requires |pubKeyOracles| == 5
    ensures fresh(r) && fresh(s) && fresh(v) && r.Length == s.Length == v.Length == 5
    ensures panicked <==> SomeShort(signs, pubKeyOracles)
    ensures !panicked ==> forall i :: 0 <= i < 5 ==>
      && AllLong(signs, pubKeyOracles[i]) && |r[i]| == 32 && |s[i]| == 32
      && Slot(r[i], s[i], v[i]) == SlotFor(signs, pubKeyOracles[i])
  {
    panicked := false;
    r, s, v := new seq<Byte>[5](_ => Zeros(32)), new seq<Byte>[5](_ => Zeros(32)), new Byte[5](_ => 0);
    for i := 0 to 5
      invariant forall k :: 0 <= k < i ==>
        AllLong(signs, pubKeyOracles[k]) && Slot(r[k], s[k], v[k]) == SlotFor(signs, pubKeyOracles[k])
      invariant forall k :: i <= k < 5 ==> Slot(r[k], s[k], v[k]) == EmptySlot()
    {
      panicked := FillSlot(i, pubKeyOracles[i], signs, r, s, v);
      if panicked { return; }
    }
  }

  method CollectSlots(pubKeyOracles: seq<string>, signs: seq<Sign>) returns (panicked: bool, slots: seq<Slot>)
    requires |pubKeyOracles| == 5
    ensures panicked <==> SomeShort(signs, pubKeyOracles)
    ensures !panicked ==> slots == Slots(signs, pubKeyOracles)
    ensures forall slot <- slots :: |slot.r| == 32 && |slot.s| == 32
  {
    var r, s, v;
    slots := [];
    panicked, r, s, v := FillSlots(pubKeyOracles, signs);
    if !panicked {
      slots := seq(5, i requires 0 <= i < 5 reads r, s, v => Slot(r[i], s[i], v[i]));
    }
  }

  // ----- enough signatures fill enough slots -----

  /** The rows a healthy quorum consists of: one per admin, 65 bytes, recovery id 0 or 1. */
  ghost predicate WellFormed(signs: seq<Sign>, admins: seq<string>) {
    && DistinctKeys(signs)
    && (forall sign <- signs :: sign.validatorPubKey in admins && Recoverable(sign))
  }

  ghost predicate Recoverable(sign: Sign) {
    var bytes := Hex.Decode(sign.sign);
    bytes.Some? && |bytes.value| == 65 && bytes.value[64] <= 1
  }

  lemma WellFormedLong(signs: seq<Sign>, admins: seq<string>, pubKey: string)
    requires WellFormed(signs, admins)
    ensures AllLong(signs, pubKey)
  {
  }

  /** A filled slot stands at its validator's admin index and holds its signature whole:
      r, s and v - 27 joined are the signature's bytes. */
  lemma SlotRebuilds(signs: seq<Sign>, admins: seq<string>, sign: Sign)
    requires WellFormed(signs, admins) && sign in signs
    ensures AllLong(signs, sign.validatorPubKey)
    ensures var slot := SlotFor(signs, sign.validatorPubKey);
      && |slot.r| == 32 && |slot.s| == 32
      && slot.v >= 27 && Some(slot.r + slot.s + [slot.v - 27]) == Hex.Decode(sign.sign)
  {
    WellFormedLong(signs, admins, sign.validatorPubKey);
    var j :| 0 <= j < |signs| && signs[j] == sign;
    assert Bytes(sign, sign.validatorPubKey).Some?;
    var bytes := Hex.Decode(sign.sign).value;
    var k := LastBytesIsLast(signs, sign.validatorPubKey);
    assert k == j;
    assert bytes == bytes[..32] + bytes[32..64] + [bytes[64]];
  }

  ghost predicate Filled(signs: seq<Sign>, admins: seq<string>, i: nat) {
    i < |admins| && AllLong(signs, admins[i]) && SlotFor(signs, admins[i]).v != 0
  }

  /** A filled slot was filled from a row of its admin. */
  lemma FilledBySomeone(signs: seq<Sign>, admins: seq<string>, i: nat) returns (sign: Sign)
    requires WellFormed(signs, admins) && Filled(signs, admins, i)
    ensures sign in signs && sign.validatorPubKey == admins[i]
  {
    var j := LastBytesIsLast(signs, admins[i]);
    sign := signs[j];
  }

  ghost predicate DistinctKeys(rows: seq<Sign>) {
    forall i, j :: 0 <= i < j < |rows| ==> rows[i].validatorPubKey != rows[j].validatorPubKey
  }

  /** Rows with different keys need different slots. */
  lemma {:induction false} EnoughSlots(rows: seq<Sign>, admins: seq<string>, slots: set<nat>)
    requires DistinctKeys(rows) && forall row <- rows :: row.validatorPubKey in admins
    requires forall row <- rows, i | 0 <= i < |admins| && admins[i] == row.validatorPubKey :: i in slots
    ensures |rows| <= |slots|
  {
    if rows != [] {
      var last, init := rows[|rows| - 1], rows[..|rows| - 1];
      assert last in rows;
      var i :| 0 <= i < |admins| && admins[i] == last.validatorPubKey;
      assert i in slots;
      EnoughSlots(init, admins, slots - {i});
    }
  }

  /** Quorum sufficiency: as many slots are filled as there are signatures. */
  lemma QuorumSufficiency(signs: seq<Sign>, admins: seq<string>) returns (slots: set<nat>)
    requires WellFormed(signs, admins)
    ensures slots == set i | 0 <= i < |admins| && Filled(signs, admins, i)
    ensures |slots| >= |signs|
  {
    slots := set i | 0 <= i < |admins| && Filled(signs, admins, i);
    forall row <- signs, i | 0 <= i < |admins| && admins[i] == row.validatorPubKey ensures i in slots {
      SlotRebuilds(signs, admins, row);
    }
    EnoughSlots(signs, admins, slots);
  }

  /** Without the assumptions: a slot is non-zero exactly when some row of its admin decodes
      and the last one that does has a v that is not 229. */
  lemma FilledIff(signs: seq<Sign>, admins: seq<string>, i: nat)
    requires i < |admins| && AllLong(signs, admins[i])
    ensures Filled(signs, admins, i) <==>
      exists bytes: seq<Byte> :: LastBytes(signs, admins[i]) == Some(bytes) && |bytes| >= 65 && bytes[64] != 229
  {
    var j := LastBytesIsLast(signs, admins[i]);
    if j >= 0 {
      assert !TooShort(signs[j], admins[i]);
    }
  }
}
