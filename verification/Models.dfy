/** The two database records, the enumerations and the queries the node runs on its
    tables (models/request.go, models/signs.go, models/enums.go). */
module Models {

  datatype Option<+T> = None | Some(value: T)

  type Byte = b: int | 0 <= b < 256

  datatype ChainType = Ethereum | Waves

  // Status is a Go int read from a uint8 or a float64, so it is not limited to the five names.
  type Status = int

  const NEW: Status := 1
  const REJECTED: Status := 2
  const SUCCESS: Status := 3

  datatype Request = Request(
    id: string,
    createdAt: int,
    status: Status,
    amount: string,
    owner: string,
    target: string,
    chain: ChainType,
    rqType: int,
    assetId: string,
    targetRequestId: string
  )

  datatype Sign = Sign(
    requestId: string,
    validatorAddress: string,
    sign: string,
    validatorPubKey: string,
    createdAt: int,
    status: Status
  )

  type Requests = map<string, Request>

  /** The Go conversion int32(x) of an int64. */
  function ToInt32(x: int): (r: int)
    ensures -0x8000_0000 <= r < 0x8000_0000
    ensures -0x8000_0000 <= x < 0x8000_0000 ==> r == x
    ensures -0x8000_0000 <= x ==> r <= x
    ensures (x - r) % 0x1_0000_0000 == 0
  {
    (x + 0x8000_0000) % 0x1_0000_0000 - 0x8000_0000
  }

  function ToLower(s: string): (r: string)
    ensures |r| == |s|
    ensures forall i :: 0 <= i < |s| ==> !('A' <= r[i] <= 'Z')
    ensures forall i :: 0 <= i < |s| ==>
      r[i] == s[i] || ('A' <= s[i] <= 'Z' && r[i] as int - 'a' as int == s[i] as int - 'A' as int)
  {
    seq(|s|, i requires 0 <= i < |s| =>
      if 'A' <= s[i] <= 'Z' then (s[i] as int + 32) as char else s[i])
  }

  function Lookup(requests: Requests, id: string): Option<Request> {
    if id in requests then Some(requests[id]) else None
  }

  /** Two versions of one row: everything but the status agrees. */
  predicate SameButStatus(a: Request, b: Request) {
    a == b.(status := a.status)
  }

  /** A query by example leaves out the fields that hold their zero value. */
  predicate Matches(s: Sign, requestId: string, address: string) {
    && (requestId == "" || s.requestId == requestId)
    && (address == "" || s.validatorAddress == address)
  }

  function FirstSign(signs: seq<Sign>, requestId: string, address: string): (r: Option<Sign>)
    ensures r.None? ==> forall s <- signs :: !Matches(s, requestId, address)
    ensures r.Some? ==> r.value in signs && Matches(r.value, requestId, address)
  {
    if signs == [] then None
    else if Matches(signs[0], requestId, address) then Some(signs[0])
    else FirstSign(signs[1..], requestId, address)
  }

  /** Scanning several rows into one struct leaves the last of them. */
  function LastSign(signs: seq<Sign>, requestId: string, address: string): (r: Option<Sign>)
    ensures r.None? ==> forall s <- signs :: !Matches(s, requestId, address)
    ensures r.Some? ==> r.value in signs && Matches(r.value, requestId, address)
  {
    if signs == [] then None
    else
      var last := signs[|signs| - 1];
      if Matches(last, requestId, address) then Some(last)
      else LastSign(signs[..|signs| - 1], requestId, address)
  }

  lemma {:induction false} LastSignIsLast(signs: seq<Sign>, requestId: string, address: string, j: nat)
    requires j < |signs| && Matches(signs[j], requestId, address)
    requires forall k :: j < k < |signs| ==> !Matches(signs[k], requestId, address)
    ensures LastSign(signs, requestId, address) == Some(signs[j])
  {
    if j < |signs| - 1 {
      LastSignIsLast(signs[..|signs| - 1], requestId, address, j);
    }
  }

  /** The duplicate test of signRequest and getSigns: look the row up into a zero struct,
      then compare addresses. */
  predicate Held(signs: seq<Sign>, requestId: string, address: string) {
    match FirstSign(signs, requestId, address)
    case None => address == ""
    case Some(s) => s.validatorAddress == address
  }

  ghost predicate HasRow(signs: seq<Sign>, requestId: string, address: string) {
    exists s :: s in signs && s.requestId == requestId && s.validatorAddress == address
  }

  lemma HeldIff(signs: seq<Sign>, requestId: string, address: string)
    requires requestId != "" && address != ""
    ensures Held(signs, requestId, address) <==> HasRow(signs, requestId, address)
  {
    if s :| s in signs && s.requestId == requestId && s.validatorAddress == address {
      assert Matches(s, requestId, address);
    }
  }

  /** Without an address the first row of the request is compared with nothing. */
  lemma HeldNameless(signs: seq<Sign>, requestId: string)
    ensures FirstSign(signs, requestId, "").None? ==> Held(signs, requestId, "")
    ensures FirstSign(signs, requestId, "").Some? ==>
      (Held(signs, requestId, "") <==> FirstSign(signs, requestId, "").value.validatorAddress == "")
  {
  }

  lemma {:induction false} HeldOther(signs: seq<Sign>, extra: seq<Sign>, requestId: string, address: string)
    requires requestId != "" && forall s <- extra :: s.requestId != requestId
    ensures Held(signs + extra, requestId, address) == Held(signs, requestId, address)
  {
    if signs == [] {
      assert signs + extra == extra;
    } else {
      assert (signs + extra)[1..] == signs[1..] + extra;
      HeldOther(signs[1..], extra, requestId, address);
    }
  }

  /** The rows stored for one request; with a status, only the rows in that status. */
  function SignsFor(signs: seq<Sign>, requestId: string, status: Option<Status>): (r: seq<Sign>)
    ensures |r| <= |signs|
    ensures forall s :: s in r <==>
      s in signs && Matches(s, requestId, "") && (status.None? || s.status == status.value)
  {
    if signs == [] then []
    else
      var init := SignsFor(signs[..|signs| - 1], requestId, status);
      var last := signs[|signs| - 1];
      assert signs == signs[..|signs| - 1] + [last];
      if Matches(last, requestId, "") && (status.None? || last.status == status.value)
      then init + [last] else init
  }

  /** Where these rows stand in the table. */
  ghost function Places(signs: seq<Sign>, requestId: string, status: Option<Status>): (places: seq<nat>)
    ensures forall i :: 0 <= i < |places| ==> places[i] < |signs|
  {
    if signs == [] then []
    else
      var k := |signs| - 1;
      var init := Places(signs[..k], requestId, status);
      if Matches(signs[k], requestId, "") && (status.None? || signs[k].status == status.value) then init + [k] else init
  }

  /** All of them, once each, in the order of the table. */
  lemma {:induction false} SignsForPlaces(signs: seq<Sign>, requestId: string, status: Option<Status>)
    ensures var places := Places(signs, requestId, status);
      && |places| == |SignsFor(signs, requestId, status)|
      && (forall i :: 0 <= i < |places| ==> SignsFor(signs, requestId, status)[i] == signs[places[i]])
      && (forall i, j :: 0 <= i < j < |places| ==> places[i] < places[j])
  {
    if signs != [] {
      SignsForPlaces(signs[..|signs| - 1], requestId, status);
    }
  }

  lemma {:induction false} PlacesAreAll(signs: seq<Sign>, requestId: string, status: Option<Status>, k: nat)
    requires k < |signs|
    ensures k in Places(signs, requestId, status) <==>
      Matches(signs[k], requestId, "") && (status.None? || signs[k].status == status.value)
  {
    var last := |signs| - 1;
    if k < last {
      PlacesAreAll(signs[..last], requestId, status, k);
    }
  }

  /** No two rows share request and validator. */
  ghost predicate Unique(signs: seq<Sign>) {
    forall i, j :: 0 <= i < j < |signs| ==>
      signs[i].requestId != signs[j].requestId || signs[i].validatorAddress != signs[j].validatorAddress
  }

  lemma {:induction false} UniqueSignsFor(signs: seq<Sign>, requestId: string, status: Option<Status>)
    requires Unique(signs)
    ensures Unique(SignsFor(signs, requestId, status))
  {
    if signs != [] {
      var init := signs[..|signs| - 1];
      UniqueSignsFor(init, requestId, status);
      assert signs == init + [signs[|signs| - 1]];
    }
  }

  lemma UniqueAppend(signs: seq<Sign>, row: Sign)
    requires Unique(signs) && !HasRow(signs, row.requestId, row.validatorAddress)
    ensures Unique(signs + [row])
  {
  }
}
