/** What the submissions made in any run carry to the contracts, on Ethereum and on Waves. */
module Submissions {
  import opened Models
  import opened Node
  import opened NodeInvariant
  import opened Protocol
  import opened TokenPairs
  import EthSlots
  import Finalizing
  import Hex
  import Messages
  import WavesList

  /** Every validator's key is an admin of the contract, and signing gives 65 bytes with a
      recovery id of 0 or 1. */
  ghost predicate Registered(cfgs: seq<Config>, admins: seq<string>) {
    forall v :: 0 <= v < |cfgs| ==>
      && cfgs[v].ethOracle in admins
      && forall preimage :: |cfgs[v].ethSign(preimage)| == 65 && cfgs[v].ethSign(preimage)[64] <= 1
  }

  /** What stands for "this request succeeded" and, by Messages.EthSignatureBindsRequest, for
      nothing else: prefix, length, the 32 bytes of the id, the status 3. */
  ghost function Vote(row: Request): seq<Byte>
    requires Hex.Decode(row.id).Some?
  {
    Messages.EthVote(Hex.Decode(row.id).value)
  }

  lemma OwnedIsRecoverable(cfgs: seq<Config>, nodes: seq<Node>, v: nat, sign: Sign, admins: seq<string>)
    requires Registered(cfgs, admins) && Owned(cfgs, nodes, v, sign)
    requires nodes[v].requests[sign.requestId].chain == Ethereum
    ensures EthSlots.Recoverable(sign) && sign.validatorPubKey in admins
    ensures sign.validatorPubKey == sign.validatorAddress == cfgs[v].ethOracle
    ensures Hex.Decode(sign.sign) ==
      Some(cfgs[v].ethSign(Messages.Preimage(Messages.FormatEthMsg(sign.requestId, SUCCESS).value)))
  {
    Hex.DecodeEncode(cfgs[v].ethSign(Messages.Preimage(Messages.FormatEthMsg(sign.requestId, SUCCESS).value)));
  }

  /** Rows of one Ethereum request, each stored somewhere by its validator. */
  ghost predicate EthRows(cfgs: seq<Config>, s: System, requestId: string, rows: seq<Sign>) {
    && Hex.IsEthId(requestId) && Unique(rows)
    && forall sign <- rows :: sign.requestId == requestId && HasOwner(cfgs, s.nodes, sign)
  }

  lemma EthRowIsVote(cfgs: seq<Config>, s: System, requestId: string, rows: seq<Sign>, admins: seq<string>, sign: Sign)
    returns (v: nat)
    requires SysInv(cfgs, s) && Registered(cfgs, admins) && EthRows(cfgs, s, requestId, rows) && sign in rows
    ensures v < |cfgs| && sign.validatorPubKey == sign.validatorAddress == cfgs[v].ethOracle && sign.status == SUCCESS
    ensures EthSlots.Recoverable(sign) && sign.validatorPubKey in admins
    ensures Hex.Decode(requestId).Some?
    ensures Hex.Decode(sign.sign) == Some(cfgs[v].ethSign(Messages.EthVote(Hex.Decode(requestId).value)))
  {
    Messages.VoteBytes(requestId);
    v :| Owned(cfgs, s.nodes, v, sign);
    assert NodeInv(cfgs[v], s.nodes[v]);
    ChainOfId(cfgs[v], s.nodes[v], requestId);
    OwnedIsRecoverable(cfgs, s.nodes, v, sign, admins);
  }

  lemma EthRowsWellFormed(cfgs: seq<Config>, s: System, requestId: string, rows: seq<Sign>, admins: seq<string>)
    requires SysInv(cfgs, s) && Registered(cfgs, admins) && EthRows(cfgs, s, requestId, rows)
    ensures EthSlots.WellFormed(rows, admins)
    ensures forall sign <- rows :: sign.validatorPubKey == sign.validatorAddress && sign.status == SUCCESS
  {
    forall sign <- rows
      ensures sign.validatorPubKey in admins && EthSlots.Recoverable(sign)
      ensures sign.validatorPubKey == sign.validatorAddress && sign.status == SUCCESS
    {
      var v := EthRowIsVote(cfgs, s, requestId, rows, admins, sign);
    }
    forall i, j | 0 <= i < j < |rows| ensures rows[i].validatorPubKey != rows[j].validatorPubKey {
      assert rows[i] in rows && rows[j] in rows;
    }
  }

  lemma CountedAreEthRows(cfgs: seq<Config>, s: System, sub: Submission)
    requires SysInv(cfgs, s) && sub in s.log && sub.row.chain == Ethereum
    ensures EthRows(cfgs, s, sub.row.id, sub.rows)
  {
    assert SubmissionOk(cfgs, s.nodes, sub);
    ChainOfId(cfgs[sub.node], s.nodes[sub.node], sub.row.id);
  }

  lemma StoredAreEthRows(cfgs: seq<Config>, s: System, n: nat, requestId: string, status: Option<Status>)
    requires SysInv(cfgs, s) && n < |s.nodes| && Hex.IsEthId(requestId) && requestId != ""
    ensures EthRows(cfgs, s, requestId, SignsFor(s.nodes[n].signs, requestId, status))
  {
    assert NodeInv(cfgs[n], s.nodes[n]) && AllOwned(cfgs, s.nodes, s.nodes[n].signs);
    UniqueSignsFor(s.nodes[n].signs, requestId, status);
  }

  /** This slot is, byte for byte, the signature of the validator with this key over the vote
      for this request. */
  ghost predicate IsVote(cfgs: seq<Config>, row: Request, admin: string, slot: EthSlots.Slot) {
    && Hex.Decode(row.id).Some?
    && |slot.r| == 32 && |slot.s| == 32 && slot.v >= 27
    && exists v: nat :: v < |cfgs| && admin == cfgs[v].ethOracle
                        && slot.r + slot.s + [slot.v - 27] == cfgs[v].ethSign(Vote(row))
  }

  /** Slot i holds the vote of the validator who is admin i. */
  ghost predicate CarriesVote(cfgs: seq<Config>, sub: Submission, admins: seq<string>, i: nat) {
    && i < |admins| && EthSlots.AllLong(sub.rows, admins[i])
    && IsVote(cfgs, sub.row, admins[i], EthSlots.SlotFor(sub.rows, admins[i]))
  }

  lemma SlotIsVote(cfgs: seq<Config>, row: Request, rows: seq<Sign>, admins: seq<string>, sign: Sign, v: nat)
    requires EthSlots.WellFormed(rows, admins) && sign in rows
    requires v < |cfgs| && sign.validatorPubKey == cfgs[v].ethOracle
    requires Hex.Decode(row.id).Some? && Hex.Decode(sign.sign) == Some(cfgs[v].ethSign(Vote(row)))
    ensures EthSlots.AllLong(rows, sign.validatorPubKey)
    ensures IsVote(cfgs, row, sign.validatorPubKey, EthSlots.SlotFor(rows, sign.validatorPubKey))
  {
    EthSlots.SlotRebuilds(rows, admins, sign);
  }

  lemma FilledSlotCarriesVote(cfgs: seq<Config>, s: System, sub: Submission, admins: seq<string>, i: nat)
    requires SysInv(cfgs, s) && Registered(cfgs, admins) && EthRows(cfgs, s, sub.row.id, sub.rows)
    requires EthSlots.WellFormed(sub.rows, admins) && EthSlots.Filled(sub.rows, admins, i)
    ensures CarriesVote(cfgs, sub, admins, i)
  {
    var sign := EthSlots.FilledBySomeone(sub.rows, admins, i);
    var v := EthRowIsVote(cfgs, s, sub.row.id, sub.rows, admins, sign);
    SlotIsVote(cfgs, sub.row, sub.rows, admins, sign, v);
  }

  /** In every run, an Ethereum submission carries at least bftCoefficient votes, each in the
      slot of its validator, and every slot it fills is such a vote. */
  lemma SubmissionCarriesQuorum(cfgs: seq<Config>, s: System, sub: Submission, admins: seq<string>)
    returns (slots: set<nat>)
    requires DistinctOracles(cfgs) && Reachable(cfgs, s) && Registered(cfgs, admins)
    requires sub in s.log && sub.row.chain == Ethereum
    ensures sub.node < |cfgs| && |slots| >= cfgs[sub.node].bftCoefficient
    ensures forall i <- slots :: CarriesVote(cfgs, sub, admins, i)
    ensures forall i: nat :: EthSlots.Filled(sub.rows, admins, i) ==> i in slots
  {
    ReachableOk(cfgs, s);
    assert SubmissionOk(cfgs, s.nodes, sub);
    CountedAreEthRows(cfgs, s, sub);
    EthRowsWellFormed(cfgs, s, sub.row.id, sub.rows, admins);
    slots := EthSlots.QuorumSufficiency(sub.rows, admins);
    forall i <- slots ensures CarriesVote(cfgs, sub, admins, i) {
      FilledSlotCarriesVote(cfgs, s, sub, admins, i);
    }
  }

  ghost predicate HandsOver(cfgs: seq<Config>, row: Request, admins: seq<string>, slots: seq<EthSlots.Slot>, i: nat) {
    i < |admins| && i < |slots| && IsVote(cfgs, row, admins[i], slots[i])
  }

  /** What a finalizing pass hands to the contract. A node whose trace is its part of a run
      returns, for each submission its trace records, at least bftCoefficient slots that are
      the votes of their admins. */
  lemma HandedOverVotes(cfgs: seq<Config>, steps: seq<Step>, n: nat, trace: Trace, signs: seq<Sign>, k: nat,
                        row: Request, sent: bool, admins: seq<string>)
    returns (slots: set<nat>)
    requires DistinctOracles(cfgs) && n < |cfgs| && AllEnabled(cfgs, Start(cfgs), steps) && Registered(cfgs, admins)
    requires IsTrace(cfgs[n], trace) && trace.acts == ActsOf(steps, n)
    requires row.chain == Ethereum && Finalizing.SubmitAt(cfgs[n], signs, trace, k, row, sent)
    ensures |slots| >= cfgs[n].bftCoefficient
    ensures forall i <- slots :: HandsOver(cfgs, row, admins, Finalizing.EthSubmissionFor(signs, row, admins).slots, i)
  {
    var s := RunAll(cfgs, Start(cfgs), steps);
    TraceIsRun(cfgs[n], trace, k);
    SubmitIsLogged(cfgs, steps, n, k, trace.states[k], row, sent);
    var sub := Submission(n, row, QuorumRows(signs, row));
    assert sub in s.log && Reachable(cfgs, s);
    slots := SubmissionCarriesQuorum(cfgs, s, sub, admins);
    forall i <- slots
      ensures HandsOver(cfgs, row, admins, Finalizing.EthSubmissionFor(signs, row, admins).slots, i)
    {
      assert CarriesVote(cfgs, sub, admins, i);
    }
  }

  /** In no run does an Ethereum pass panic when every validator is registered. */
  lemma NeverPanics(cfgs: seq<Config>, s: System, n: nat, row: Request, reply: Finalizing.FinalReply,
                    admins: seq<string>)
    requires DistinctOracles(cfgs) && Reachable(cfgs, s) && Registered(cfgs, admins) && n < |s.nodes|
    requires row.chain == Ethereum && row.id in s.nodes[n].requests && s.nodes[n].requests[row.id].chain == Ethereum
    ensures n < |cfgs| && !Finalizing.PanicsAt(cfgs[n], s.nodes[n].signs, admins, row, reply)
  {
    ReachableOk(cfgs, s);
    assert NodeInv(cfgs[n], s.nodes[n]);
    ChainOfId(cfgs[n], s.nodes[n], row.id);
    StoredAreEthRows(cfgs, s, n, row.id, Some(SUCCESS));
    EthRowsWellFormed(cfgs, s, row.id, QuorumRows(s.nodes[n].signs, row), admins);
    forall i | 0 <= i < |admins| ensures EthSlots.AllLong(QuorumRows(s.nodes[n].signs, row), admins[i]) {
      EthSlots.WellFormedLong(QuorumRows(s.nodes[n].signs, row), admins, admins[i]);
    }
  }

  /** In every run the two finalizers' ways of choosing an admin's row come to the same, on
      any node, for any Ethereum request, whatever else the table holds; */
  lemma StoredSelectionsAgree(cfgs: seq<Config>, s: System, n: nat, requestId: string, admins: seq<string>,
                              pubKey: string)
    requires DistinctOracles(cfgs) && Reachable(cfgs, s) && Registered(cfgs, admins)
    requires n < |s.nodes| && Hex.IsEthId(requestId) && requestId != ""
    ensures EthSlots.LastBytes(SignsFor(s.nodes[n].signs, requestId, Some(SUCCESS)), pubKey) ==
            WavesList.FirstBytes(SignsFor(s.nodes[n].signs, requestId, None), pubKey)
  {
    ReachableOk(cfgs, s);
    var signs := s.nodes[n].signs;
    var rows := SignsFor(signs, requestId, None);
    assert NodeInv(cfgs[n], s.nodes[n]);
    StoredAreEthRows(cfgs, s, n, requestId, None);
    EthRowsWellFormed(cfgs, s, requestId, rows, admins);
    assert forall i :: 0 <= i < |rows| ==> rows[i] in rows;
    assert forall sign <- signs | sign.requestId == requestId :: sign in rows;
    WavesList.SelectionsAgree(signs, requestId, pubKey);
  }

  /** and so they do on the rows of every Ethereum submission. */
  lemma SubmittedSelectionsAgree(cfgs: seq<Config>, s: System, sub: Submission, admins: seq<string>, pubKey: string)
    requires DistinctOracles(cfgs) && Reachable(cfgs, s) && Registered(cfgs, admins)
    requires sub in s.log && sub.row.chain == Ethereum
    ensures EthSlots.LastBytes(sub.rows, pubKey) == WavesList.FirstBytes(sub.rows, pubKey)
  {
    ReachableOk(cfgs, s);
    CountedAreEthRows(cfgs, s, sub);
    EthRowsWellFormed(cfgs, s, sub.row.id, sub.rows, admins);
    WavesList.OneChoice(sub.rows, pubKey);
  }

  // ----- the same for Waves -----

  /** keys[v] is the public key of validator v's wallet: an admin, no one else's, and the one
      it signs with, giving signatures that are not empty and hold no comma. */
  ghost predicate RegisteredWaves(cfgs: seq<Config>, keys: seq<string>, admins: seq<string>) {
    && |keys| == |cfgs|
    && (forall v, w :: 0 <= v < w < |keys| ==> keys[v] != keys[w])
    && forall v :: 0 <= v < |cfgs| ==> keys[v] in admins && WalletOk(cfgs[v], keys[v])
  }

  ghost predicate WalletOk(cfg: Config, key: string) {
    forall message, nonce :: cfg.wavesSign(message, nonce).Some? ==>
      var text := cfg.wavesSign(message, nonce).value;
      text.publicKey == key && text.signature != "" && WavesList.CommaFree(text.signature)
  }

  /** This text is validator v's signature over "this request succeeded". */
  ghost predicate IsWavesVote(cfg: Config, key: string, row: Request, text: string) {
    exists nonce :: cfg.wavesSign(row.id + "_3", nonce) == Some(SignedText(key, text))
  }

  lemma CountedWavesVote(cfgs: seq<Config>, s: System, sub: Submission, keys: seq<string>,
                         admins: seq<string>, sign: Sign)
    returns (v: nat)
    requires SysInv(cfgs, s) && sub in s.log && sub.row.chain == Waves && sign in sub.rows
    requires RegisteredWaves(cfgs, keys, admins)
    ensures v < |cfgs| && sign.validatorPubKey == keys[v] && sign.validatorAddress == cfgs[v].wavesOracle
    ensures IsWavesVote(cfgs[v], keys[v], sub.row, sign.sign)
    ensures sign.sign != "" && WavesList.CommaFree(sign.sign)
  {
    assert SubmissionOk(cfgs, s.nodes, sub);
    v :| Owned(cfgs, s.nodes, v, sign);
    OwnerVouches(cfgs, s, sub, v, sign);
    assert AuthenticWavesRow(cfgs[v], sign);
    Messages.WavesVoteText(sub.row.id);
    assert WalletOk(cfgs[v], keys[v]);
  }

  lemma CountedRowsUnique(cfgs: seq<Config>, s: System, sub: Submission)
    requires SysInv(cfgs, s) && sub in s.log
    ensures Unique(sub.rows) && forall sign <- sub.rows :: sign.requestId == sub.row.id
  {
    assert SubmissionOk(cfgs, s.nodes, sub);
  }

  lemma DifferentWavesKeys(cfgs: seq<Config>, keys: seq<string>, a: Sign, b: Sign, v: nat, w: nat)
    requires v < |cfgs| == |keys| && w < |cfgs| && forall i, j :: 0 <= i < j < |keys| ==> keys[i] != keys[j]
    requires a.validatorPubKey == keys[v] && a.validatorAddress == cfgs[v].wavesOracle
    requires b.validatorPubKey == keys[w] && b.validatorAddress == cfgs[w].wavesOracle
    requires a.validatorAddress != b.validatorAddress
    ensures a.validatorPubKey != b.validatorPubKey
  {
    assert v != w;
  }

  lemma CountedWavesRows(cfgs: seq<Config>, s: System, sub: Submission, keys: seq<string>, admins: seq<string>)
    requires SysInv(cfgs, s) && sub in s.log && sub.row.chain == Waves && RegisteredWaves(cfgs, keys, admins)
    ensures EthSlots.DistinctKeys(sub.rows)
    ensures forall sign <- sub.rows :: sign.validatorPubKey in admins && sign.sign != "" && WavesList.CommaFree(sign.sign)
  {
    CountedRowsUnique(cfgs, s, sub);
    forall sign <- sub.rows
      ensures sign.validatorPubKey in admins && sign.sign != "" && WavesList.CommaFree(sign.sign)
    {
      var v := CountedWavesVote(cfgs, s, sub, keys, admins, sign);
    }
    forall i, j | 0 <= i < j < |sub.rows|
      ensures sub.rows[i].validatorPubKey != sub.rows[j].validatorPubKey
    {
      var a, b := sub.rows[i], sub.rows[j];
      assert a in sub.rows && b in sub.rows;
      var v := CountedWavesVote(cfgs, s, sub, keys, admins, a);
      var w := CountedWavesVote(cfgs, s, sub, keys, admins, b);
      DifferentWavesKeys(cfgs, keys, a, b, v, w);
    }
  }

  /** Field i is the vote of the validator who is admin i. */
  ghost predicate FieldIsVote(cfgs: seq<Config>, sub: Submission, keys: seq<string>, admin: string, part: string) {
    exists v :: 0 <= v < |cfgs| && v < |keys| && admin == keys[v] && IsWavesVote(cfgs[v], keys[v], sub.row, part)
  }

  ghost predicate Stored(rows: seq<Sign>, admin: string) {
    exists row :: row in rows && row.validatorPubKey == admin
  }

  lemma StoredFieldIsVote(cfgs: seq<Config>, s: System, sub: Submission, keys: seq<string>, admins: seq<string>, i: nat)
    requires SysInv(cfgs, s) && sub in s.log && sub.row.chain == Waves && RegisteredWaves(cfgs, keys, admins)
    requires i < |admins|
    ensures if Stored(sub.rows, admins[i])
            then FieldIsVote(cfgs, sub, keys, admins[i], WavesList.Field(sub.rows, admins[i]))
            else WavesList.Field(sub.rows, admins[i]) == "q"
  {
    var first := WavesList.FirstBy(sub.rows, admins[i]);
    if Stored(sub.rows, admins[i]) {
      var sign := first.value;
      assert sign in sub.rows;
      var v := CountedWavesVote(cfgs, s, sub, keys, admins, sign);
    }
  }

  /** In every run, the list of a Waves submission splits at its commas into one field per
      admin, in order; at least bftCoefficient of them are votes of the admin at that place
      for this request, and the others are placeholders. */
  lemma WavesSubmissionCarriesQuorum(cfgs: seq<Config>, s: System, sub: Submission, keys: seq<string>,
                                     adminState: string)
    returns (places: set<nat>)
    requires DistinctOracles(cfgs) && Reachable(cfgs, s) && sub in s.log && sub.row.chain == Waves
    requires RegisteredWaves(cfgs, keys, WavesList.Split(adminState))
    ensures sub.node < |cfgs| && |places| >= cfgs[sub.node].bftCoefficient
    ensures var admins := WavesList.Split(adminState);
      var parts := WavesList.Split(WavesList.Joined(WavesList.Fields(sub.rows, admins)));
      && |parts| == |admins|
      && (forall i <- places :: i < |admins|)
      && forall i :: 0 <= i < |admins| ==>
           if i in places then FieldIsVote(cfgs, sub, keys, admins[i], parts[i]) else parts[i] == "q"
  {
    ReachableOk(cfgs, s);
    assert SubmissionOk(cfgs, s.nodes, sub);
    var admins := WavesList.Split(adminState);
    CountedWavesRows(cfgs, s, sub, keys, admins);
    places := set i | 0 <= i < |admins| && Stored(sub.rows, admins[i]);
    EthSlots.EnoughSlots(sub.rows, admins, places);
    WavesList.ListReadsBack(adminState, sub.rows);
    forall i | 0 <= i < |admins|
      ensures if i in places then FieldIsVote(cfgs, sub, keys, admins[i], WavesList.Field(sub.rows, admins[i]))
              else WavesList.Field(sub.rows, admins[i]) == "q"
    {
      StoredFieldIsVote(cfgs, s, sub, keys, admins, i);
    }
  }

  /** And the list a finalizing pass hands to the Waves contract. */
  lemma HandedOverList(cfgs: seq<Config>, steps: seq<Step>, n: nat, trace: Trace, signs: seq<Sign>, k: nat,
                       row: Request, sent: bool, keys: seq<string>, adminState: string)
    returns (sub: Submission, places: set<nat>)
    requires DistinctOracles(cfgs) && n < |cfgs| && AllEnabled(cfgs, Start(cfgs), steps)
    requires RegisteredWaves(cfgs, keys, WavesList.Split(adminState))
    requires IsTrace(cfgs[n], trace) && trace.acts == ActsOf(steps, n)
    requires row.chain == Waves && Finalizing.SubmitAt(cfgs[n], signs, trace, k, row, sent)
    ensures sub.row == row && |places| >= cfgs[n].bftCoefficient
    ensures var admins := WavesList.Split(adminState);
      var parts := WavesList.Split(Finalizing.WavesSubmissionFor(signs, row, admins).sortedSigns);
      && |parts| == |admins|
      && (forall i <- places :: i < |admins|)
      && forall i :: 0 <= i < |admins| ==>
           if i in places then FieldIsVote(cfgs, sub, keys, admins[i], parts[i]) else parts[i] == "q"
  {
    var s := RunAll(cfgs, Start(cfgs), steps);
    TraceIsRun(cfgs[n], trace, k);
    SubmitIsLogged(cfgs, steps, n, k, trace.states[k], row, sent);
    sub := Submission(n, row, QuorumRows(signs, row));
    assert sub in s.log && Reachable(cfgs, s);
    places := WavesSubmissionCarriesQuorum(cfgs, s, sub, keys, adminState);
  }
}
