/** The comma-joined signature list of a Waves submission (signer/waves.go:45-60). */
module WavesList {
  import opened Models
  import EthSlots

  const PLACEHOLDER: string := "q"

  function FirstBy(signs: seq<Sign>, pubKey: string): (r: Option<Sign>)
    ensures r.Some? ==> r.value in signs && r.value.validatorPubKey == pubKey
    ensures r.None? ==> forall sign <- signs :: sign.validatorPubKey != pubKey
  {
    if signs == [] then None
    else if signs[0].validatorPubKey == pubKey then Some(signs[0])
    else FirstBy(signs[1..], pubKey)
  }

  lemma {:induction false} FirstByIsFirst(signs: seq<Sign>, pubKey: string, j: nat)
    requires j < |signs| && signs[j].validatorPubKey == pubKey
    requires forall k :: 0 <= k < j ==> signs[k].validatorPubKey != pubKey
    ensures FirstBy(signs, pubKey) == Some(signs[j])
  {
    if j > 0 {
      FirstByIsFirst(signs[1..], pubKey, j - 1);
    }
  }

  function Field(signs: seq<Sign>, pubKey: string): string {
    match FirstBy(signs, pubKey)
    case None => PLACEHOLDER
    case Some(sign) => sign.sign
  }

  function Fields(signs: seq<Sign>, admins: seq<string>): (fields: seq<string>)
    ensures |fields| == |admins|
    ensures forall i :: 0 <= i < |admins| ==> fields[i] == Field(signs, admins[i])
  {
    seq(|admins|, i requires 0 <= i < |admins| => Field(signs, admins[i]))
  }

  /** The separator is added only once the list is non-empty. */
  function Joined(fields: seq<string>): string {
    if fields == [] then ""
    else
      var init := Joined(fields[..|fields| - 1]);
      (if |init| > 0 then init + "," else init) + fields[|fields| - 1]
  }

  method FindSign(signs: seq<Sign>, pubKey: string) returns (foundSign: string)
    ensures foundSign == Field(signs, pubKey)
  {
    foundSign := PLACEHOLDER;
    for j := 0 to |signs|
      invariant foundSign == PLACEHOLDER
      invariant forall k :: 0 <= k < j ==> signs[k].validatorPubKey != pubKey
    {
      if signs[j].validatorPubKey == pubKey {
        FirstByIsFirst(signs, pubKey, j);
        foundSign := signs[j].sign;
        break;
      }
    }
  }

  method SortSigns(pubKeyOracles: seq<string>, signs: seq<Sign>) returns (sortedSigns: string)
    ensures sortedSigns == Joined(Fields(signs, pubKeyOracles))
  {
    sortedSigns := "";
    ghost var fields := Fields(signs, pubKeyOracles);
    for i := 0 to |pubKeyOracles|
      invariant sortedSigns == Joined(fields[..i])
    {
      if |sortedSigns| > 0 {
        sortedSigns := sortedSigns + ",";
      }
      var foundSign := FindSign(signs, pubKeyOracles[i]);
      sortedSigns := sortedSigns + foundSign;
      assert fields[..i + 1][..i] == fields[..i];
    }
    assert fields[..|pubKeyOracles|] == fields;
  }

  // ----- reading the list back -----

  predicate CommaFree(s: string) { ',' !in s }

  /** strings.Split at ",". */
  function Split(s: string): (parts: seq<string>)
    ensures |parts| >= 1
    ensures forall part <- parts :: CommaFree(part)
  {
    if s == "" then [""]
    else
      var rest := Split(s[..|s| - 1]);
      if s[|s| - 1] == ',' then rest + [""]
      else
        var last := rest[|rest| - 1];
        assert CommaFree(last) && CommaFree(last + [s[|s| - 1]]);
        rest[..|rest| - 1] + [last + [s[|s| - 1]]]
  }

  lemma {:induction false} SplitCommaFree(s: string)
    requires CommaFree(s)
    ensures Split(s) == [s]
  {
    if s != "" {
      SplitCommaFree(s[..|s| - 1]);
      assert s == s[..|s| - 1] + [s[|s| - 1]];
    }
  }

  /** A comma-free text after a comma is one more part. */
  lemma {:induction false} SplitSeparated(a: string, b: string)
    requires CommaFree(b)
    ensures Split(a + "," + b) == Split(a) + [b]
  {
    var all := a + "," + b;
    if b == "" {
      assert all[..|all| - 1] == a;
    } else {
      var init := b[..|b| - 1];
      SplitSeparated(a, init);
      assert all[..|all| - 1] == a + "," + init;
      assert b == init + [b[|b| - 1]];
    }
  }

  lemma {:induction false} JoinedReadsBack(fields: seq<string>)
    requires |fields| >= 1 && (forall field <- fields :: CommaFree(field))
    requires |fields| == 1 || fields[0] != ""
    ensures Split(Joined(fields)) == fields
    ensures fields[0] != "" ==> Joined(fields) != ""
  {
    var init, last := fields[..|fields| - 1], fields[|fields| - 1];
    assert fields == init + [last];
    if |fields| == 1 {
      assert Joined(init) == "" && Joined(fields) == last;
      SplitCommaFree(last);
    } else {
      JoinedReadsBack(init);
      SplitSeparated(Joined(init), last);
    }
  }

  /** An empty first field swallows a separator. */
  lemma {:induction false} EmptyHeadLosesAField(fields: seq<string>)
    requires |fields| >= 2 && fields[0] == "" && (forall field <- fields :: CommaFree(field))
    ensures |Split(Joined(fields))| < |fields|
  {
    var init, last := fields[..|fields| - 1], fields[|fields| - 1];
    if |fields| == 2 {
      assert init == [""] && Joined(init[..0]) == "" && Joined(init) == "";
      assert Joined(fields) == last;
      SplitCommaFree(last);
    } else {
      EmptyHeadLosesAField(init);
      if Joined(init) == "" {
        assert Joined(fields) == last;
        SplitCommaFree(last);
      } else {
        SplitSeparated(Joined(init), last);
      }
    }
  }

  /** The list reads back as the fields exactly when no field holds a comma and the first is
      not empty (or is the only one). */
  lemma ReadsBackIff(fields: seq<string>)
    requires |fields| >= 1
    ensures Split(Joined(fields)) == fields <==>
      (forall field <- fields :: CommaFree(field)) && (|fields| == 1 || fields[0] != "")
  {
    if forall field <- fields :: CommaFree(field) {
      if |fields| == 1 || fields[0] != "" { JoinedReadsBack(fields); } else { EmptyHeadLosesAField(fields); }
    }
  }

  /** The admin's stored signature, or the placeholder when none is stored. */
  ghost predicate IsField(signs: seq<Sign>, admin: string, part: string) {
    || (exists sign :: sign in signs && sign.validatorPubKey == admin && part == sign.sign)
    || (part == "q" && forall sign <- signs :: sign.validatorPubKey != admin)
  }

  lemma FieldMeaning(signs: seq<Sign>, admin: string)
    requires forall sign <- signs :: CommaFree(sign.sign) && sign.sign != ""
    ensures IsField(signs, admin, Field(signs, admin))
    ensures CommaFree(Field(signs, admin)) && Field(signs, admin) != ""
  {
    var first := FirstBy(signs, admin);
  }

  /** Base58 signatures hold no comma: the contract then reads one field per admin, in the
      order of its own admin list. */
  lemma ListReadsBack(adminState: string, signs: seq<Sign>)
    requires forall sign <- signs :: CommaFree(sign.sign) && sign.sign != ""
    ensures var admins := Split(adminState);
      var parts := Split(Joined(Fields(signs, admins)));
      && parts == Fields(signs, admins)
      && forall i :: 0 <= i < |admins| ==> IsField(signs, admins[i], parts[i])
  {
    var admins := Split(adminState);
    var fields := Fields(signs, admins);
    forall i | 0 <= i < |admins|
      ensures CommaFree(fields[i]) && fields[i] != "" && IsField(signs, admins[i], fields[i])
    {
      FieldMeaning(signs, admins[i]);
    }
    JoinedReadsBack(fields);
  }

  // ----- both finalizers pick the same row -----

  /** The bytes of the row the Waves finalizer picks: the first match. */
  function FirstBytes(rows: seq<Sign>, pubKey: string): Option<seq<Byte>> {
    match FirstBy(rows, pubKey)
    case None => None
    case Some(sign) => EthSlots.Bytes(sign, pubKey)
  }

  ghost predicate KeysFollowAddresses(signs: seq<Sign>) {
    forall i, j :: 0 <= i < |signs| && 0 <= j < |signs| && signs[i].validatorPubKey == signs[j].validatorPubKey ==>
      signs[i].validatorAddress == signs[j].validatorAddress
  }

  /** One row per key, every one decodable: first and last match are one row. */
  lemma OneChoice(rows: seq<Sign>, pubKey: string)
    requires EthSlots.DistinctKeys(rows)
    requires forall row <- rows :: EthSlots.Bytes(row, row.validatorPubKey).Some?
    ensures EthSlots.LastBytes(rows, pubKey) == FirstBytes(rows, pubKey)
  {
    var first := FirstBy(rows, pubKey);
    var k := EthSlots.LastBytesIsLast(rows, pubKey);
    if first.Some? {
      var j :| 0 <= j < |rows| && rows[j] == first.value;
      assert EthSlots.Bytes(rows[j], pubKey).Some?;
      assert j == k;
    }
  }

  /** The Ethereum finalizer keeps the last decodable match among the Success rows of a
      request, the Waves finalizer the first match among all of them: one validator, one row,
      one choice, whatever the table holds for other requests. */
  lemma SelectionsAgree(signs: seq<Sign>, requestId: string, pubKey: string)
    requires requestId != "" && Unique(signs) && KeysFollowAddresses(SignsFor(signs, requestId, None))
    requires forall sign <- signs | sign.requestId == requestId ::
               sign.status == SUCCESS && EthSlots.Bytes(sign, sign.validatorPubKey).Some?
    ensures EthSlots.LastBytes(SignsFor(signs, requestId, Some(SUCCESS)), pubKey) ==
            FirstBytes(SignsFor(signs, requestId, None), pubKey)
  {
    SameRows(signs, requestId);
    UniqueSignsFor(signs, requestId, None);
    var rows := SignsFor(signs, requestId, None);
    forall i, j | 0 <= i < j < |rows| ensures rows[i].validatorPubKey != rows[j].validatorPubKey {
      assert rows[i] in rows && rows[j] in rows;
    }
    OneChoice(rows, pubKey);
  }

  lemma {:induction false} SameRows(signs: seq<Sign>, requestId: string)
    requires requestId != "" && forall sign <- signs | sign.requestId == requestId :: sign.status == SUCCESS
    ensures SignsFor(signs, requestId, None) == SignsFor(signs, requestId, Some(SUCCESS))
  {
    if signs != [] {
      SameRows(signs[..|signs| - 1], requestId);
    }
  }
}
