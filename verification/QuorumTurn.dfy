/** The passes themselves, end to end: every validator caches a request, signs it and is asked
    for its signature; one of them pulls and finalizes. */
module QuorumTurn {
  import opened Finalizing
  import opened Models
  import opened Node
  import opened NodeInvariant
  import opened Protocol
  import opened QuorumRuns
  import opened Signing
  import opened Submissions
  import EthSlots
  import Hex
  import Messages
  import Validator

  lemma OnlyOne(rows: seq<Request>, row: Request, chain: Option<ChainType>)
    requires row.status == NEW && (chain.None? || row.chain == chain.value)
    requires AllPending(rows, map[row.id := row], chain)
    ensures rows == [row]
  {
    assert row in rows;
    forall i | 0 <= i < |rows| ensures rows[i] == row {
      assert rows[i] in rows;
    }
    assert |rows| > 1 ==> rows[0].id != rows[1].id;
  }

  /** A validator that has cached the request and signed it. */
  method Prepare(cfg: Config, order: Order, visit: Visit) returns (node: Validator.Validator)
    requires NamedOracles(cfg) && Acceptable(cfg, order, visit)
    ensures fresh(node) && node.Valid() && node.cfg == cfg
    ensures node.requests == map[RowOf(order).id := RowOf(order)] && node.signs == [Own(cfg, order, visit)]
  {
    node := new Validator.Validator(cfg);
    match order {
      case EthOrder(hash, rq) => node.CacheEth(hash, rq, visit.height);
      case WavesOrder(id, item) => node.CacheWaves(id, item, visit.height);
    }
    Cached(cfg, order, visit);
    var replies := (row: Request) => SignReply(Some(visit.view), visit.nonce, visit.now);
    var rows := node.SignRequest(replies);
    OnlyOne(rows, RowOf(order), None);
    assert rows[..0] == [];
  }

  /** One vote of each validator for the request. */
  ghost predicate Votes(row: Request, owns: seq<Sign>) {
    && (forall v :: 0 <= v < |owns| ==>
          owns[v].requestId == row.id && owns[v].status == SUCCESS && owns[v].validatorAddress != "")
    && forall v, w :: 0 <= v < w < |owns| ==> owns[v].validatorAddress != owns[w].validatorAddress
  }

  /** What a validator that has done so answers when asked. */
  method Ask(cfg: Config, order: Order, visit: Visit) returns (sign: Sign)
    requires NamedOracles(cfg) && Acceptable(cfg, order, visit)
    ensures sign == Own(cfg, order, visit)
  {
    var peer := Prepare(cfg, order, visit);
    OwnFields(cfg, order, visit);
    assert Own(cfg, order, visit) in peer.signs;
    var reply := peer.ServeSign(RowOf(order).id);
    sign := reply.value;
  }

  /** The signatures of all validators, as their servers answer. */
  method AskAll(cfgs: seq<Config>, order: Order, visits: seq<Visit>) returns (served: seq<Sign>)
    requires DistinctOracles(cfgs) && AllAccept(cfgs, order, visits)
    ensures |served| == |cfgs| && Votes(RowOf(order), served)
    ensures forall v :: 0 <= v < |cfgs| ==> served[v] == Own(cfgs[v], order, visits[v])
  {
    served := [];
    for v := 0 to |cfgs|
      invariant |served| == v && forall w :: 0 <= w < v ==> served[w] == Own(cfgs[w], order, visits[w])
    {
      var sign := Ask(cfgs[v], order, visits[v]);
      served := served + [sign];
    }
    AreVotes(cfgs, order, visits, served);
  }

  lemma AreVotes(cfgs: seq<Config>, order: Order, visits: seq<Visit>, owns: seq<Sign>)
    requires DistinctOracles(cfgs) && AllAccept(cfgs, order, visits) && |owns| == |cfgs|
    requires forall v :: 0 <= v < |cfgs| ==> owns[v] == Own(cfgs[v], order, visits[v])
    ensures Votes(RowOf(order), owns)
  {
    var chain := RowOf(order).chain;
    forall v | 0 <= v < |owns|
      ensures owns[v].requestId == RowOf(order).id && owns[v].status == SUCCESS
      ensures owns[v].validatorAddress == Oracle(cfgs[v], chain) != ""
    {
      OwnFields(cfgs[v], order, visits[v]);
    }
  }

  lemma OwnFields(cfg: Config, order: Order, visit: Visit)
    requires Acceptable(cfg, order, visit)
    ensures Own(cfg, order, visit).requestId == RowOf(order).id && Own(cfg, order, visit).status == SUCCESS
    ensures Own(cfg, order, visit).validatorAddress == Oracle(cfg, RowOf(order).chain)
  {
  }

  // ----- pulling from all of them -----

  /** The peer at this address answers with its signature, and about this request only. */
  function ReplyOf(id: string, ips: seq<string>, served: seq<Sign>, row: Request, ip: string): PullReply
    requires |ips| == |served|
    decreases |ips|
  {
    if ips == [] || row.id != id then BadStatus
    else if ips[|ips| - 1] == ip then Row(served[|ips| - 1])
    else ReplyOf(id, ips[..|ips| - 1], served[..|ips| - 1], row, ip)
  }

  lemma {:induction false} ReplyOfIs(id: string, ips: seq<string>, served: seq<Sign>, row: Request, ip: string)
    requires |ips| == |served|
    ensures ReplyOf(id, ips, served, row, ip).Row? ==> row.id == id && ReplyOf(id, ips, served, row, ip).sign in served
    ensures row.id == id && Distinct(ips) ==>
      forall i :: 0 <= i < |ips| && ips[i] == ip ==> ReplyOf(id, ips, served, row, ip) == Row(served[i])
    decreases |ips|
  {
    if ips != [] {
      ReplyOfIs(id, ips[..|ips| - 1], served[..|ips| - 1], row, ip);
    }
  }

  ghost predicate Distinct(ips: seq<string>) {
    forall i, j :: 0 <= i < j < |ips| ==> ips[i] != ips[j]
  }

  /** Every peer answers about the request with its own vote. */
  ghost predicate AllAnswer(row: Request, ips: seq<string>, served: seq<Sign>, replies: (Request, string) -> PullReply) {
    && HonestPeers(replies) && |ips| == |served|
    && (forall v :: 0 <= v < |ips| ==> replies(row, ips[v]) == Row(served[v]))
    && forall ip :: replies(row, ip).Row? ==> replies(row, ip).sign in served
  }

  lemma {:induction false} RepliesAnswer(row: Request, ips: seq<string>, served: seq<Sign>,
                                         replies: (Request, string) -> PullReply)
    requires Votes(row, served) && |ips| == |served| && Distinct(ips)
    requires forall r, ip :: replies(r, ip) == ReplyOf(row.id, ips, served, r, ip)
    ensures AllAnswer(row, ips, served, replies)
  {
    forall r, ip
      ensures HonestPull(r, replies(r, ip)) && (replies(r, ip).Row? ==> replies(r, ip).sign in served)
    {
      ReplyOfIs(row.id, ips, served, r, ip);
    }
    forall v | 0 <= v < |ips| ensures replies(row, ips[v]) == Row(served[v]) {
      ReplyOfIs(row.id, ips, served, row, ips[v]);
    }
  }

  /** Every one of these votes, once, and nothing else. */
  ghost predicate Complete(owns: seq<Sign>, signs: seq<Sign>) {
    Unique(signs) && (forall sign <- signs :: sign in owns) && forall own <- owns :: own in signs
  }

  /** Pulling from every peer, itself included, leaves exactly one vote of each validator. */
  lemma {:induction false} PulledIsComplete(row: Request, served: seq<Sign>, m: nat, ips: seq<string>,
                                            replies: (Request, string) -> PullReply)
    requires row.id != "" && Votes(row, served) && m < |served| && AllAnswer(row, ips, served, replies)
    ensures Complete(served, PullAll([served[m]], [row], ips, replies))
  {
    var signs := PullAll([served[m]], [row], ips, replies);
    PullAllAdds([served[m]], [row], ips, replies);
    forall i | 0 <= i < |signs| ensures signs[i] in served {
      if i > 0 {
        var r, ip :| r in [row] && ip in ips && replies(r, ip) == Row(signs[i]);
      }
    }
    forall v | 0 <= v < |served| ensures served[v] in signs {
      assert ips[v] in ips && row in [row];
      var sign :| sign in signs && sign.validatorAddress == served[v].validatorAddress;
    }
  }

  lemma {:induction false} CompleteIsQuorum(row: Request, owns: seq<Sign>, signs: seq<Sign>)
    requires Votes(row, owns) && Complete(owns, signs)
    ensures |QuorumRows(signs, row)| == |signs| >= |owns|
  {
    forall i | 0 <= i < |signs| ensures signs[i].requestId == row.id && signs[i].status == SUCCESS {
      assert signs[i] in signs;
    }
    AllCounted(signs, row.id, if row.chain == Ethereum then Some(SUCCESS) else None);
    var addresses := seq(|owns|, v requires 0 <= v < |owns| => owns[v].validatorAddress);
    forall v | 0 <= v < |owns| ensures HasAddress(signs, addresses[v]) {
      assert owns[v] in signs;
      var j :| 0 <= j < |signs| && signs[j] == owns[v];
    }
    AddressesNeedRows(signs, addresses);
  }

  ghost predicate HasAddress(signs: seq<Sign>, address: string) {
    exists j :: 0 <= j < |signs| && signs[j].validatorAddress == address
  }

  lemma OtherAddressStays(signs: seq<Sign>, j: nat, address: string)
    requires j < |signs| && signs[j].validatorAddress != address && HasAddress(signs, address)
    ensures HasAddress(signs[..j] + signs[j + 1..], address)
  {
    var rest := signs[..j] + signs[j + 1..];
    var l :| 0 <= l < |signs| && signs[l].validatorAddress == address;
    var k := if l < j then l else l - 1;
    assert rest[k] == signs[l];
  }

  /** Different addresses need different rows. */
  lemma {:induction false} AddressesNeedRows(signs: seq<Sign>, addresses: seq<string>)
    requires forall i, j :: 0 <= i < j < |addresses| ==> addresses[i] != addresses[j]
    requires forall i :: 0 <= i < |addresses| ==> HasAddress(signs, addresses[i])
    ensures |addresses| <= |signs|
  {
    if addresses != [] {
      var k := |addresses| - 1;
      assert HasAddress(signs, addresses[k]);
      var j :| 0 <= j < |signs| && signs[j].validatorAddress == addresses[k];
      forall i | 0 <= i < k ensures HasAddress(signs[..j] + signs[j + 1..], addresses[i]) {
        OtherAddressStays(signs, j, addresses[i]);
      }
      AddressesNeedRows(signs[..j] + signs[j + 1..], addresses[..k]);
    }
  }

  /** Validator m has gathered everyone's vote. */
  method Gather(cfgs: seq<Config>, order: Order, visits: seq<Visit>, m: nat, ips: seq<string>)
    returns (node: Validator.Validator, votes: seq<Sign>)
    requires DistinctOracles(cfgs) && AllAccept(cfgs, order, visits) && m < |cfgs| == |ips| && Distinct(ips)
    ensures fresh(node) && node.Valid() && node.cfg == cfgs[m] && node.requests == map[RowOf(order).id := RowOf(order)]
    ensures |votes| == |cfgs| && forall v :: 0 <= v < |cfgs| ==> votes[v] == Own(cfgs[v], order, visits[v])
    ensures Complete(votes, node.signs) && |QuorumRows(node.signs, RowOf(order))| >= |cfgs|
  {
    votes := AskAll(cfgs, order, visits);
    node := Prepare(cfgs[m], order, visits[m]);
    Cached(cfgs[m], order, visits[m]);
    var row, served := RowOf(order), votes;
    var replies := (r: Request, ip: string) => ReplyOf(row.id, ips, served, r, ip);
    RepliesAnswer(row, ips, served, replies);
    PulledIsComplete(row, served, m, ips, replies);
    var rows := node.GetSigns(ips, replies);
    OnlyOne(rows, row, None);
    CompleteIsQuorum(row, served, node.signs);
  }

  // ----- the finalizing turn -----

  /** A pass over this one row, New on its chain and with a quorum, when submissions are sent. */
  ghost predicate OneDueRow(p: FinalPass, node: Node, row: Request) {
    && row.status == NEW && row.chain == p.chain && p.before == map[row.id := row]
    && Known(row, p.replies(row)) && p.replies(row) == FinalReply(Some(NEW), Sent)
    && node.signs == p.signs && CanSubmit(p.cfg, node, row)
  }

  lemma {:induction false} Outcome(p: FinalPass, node: Node, row: Request, result: PassResult, done: nat,
                                   after: Requests)
    requires OneDueRow(p, node, row) && Ended(p, result, [row], done, after)
    ensures row.id in after
    ensures if p.chain == Ethereum && EthSlots.SomeShort(QuorumRows(p.signs, row), p.admins)
      then result == Panicked && done == 0 && after[row.id] == row
      else result == Finished && done == 1 && after[row.id] == row.(status := SUCCESS)
  {
    RowLaw(p, node, row);
    assert DueIn(p, row);
    assert [row][..0] == [] && [row][..1] == [row] && [row][0] == row;
  }

  lemma OneDue(p: FinalPass, row: Request)
    ensures DueRows(p, [row][..0]) == []
    ensures DueIn(p, row) ==> DueRows(p, [row][..1]) == [row]
  {
    assert [row][..0] == [] && [row][..1] == [row];
    assert DueRows(p, []) == [];
  }

  lemma {:induction false} EthOutcome(p: FinalPass, node: Node, row: Request, result: PassResult, done: nat,
                                      after: Requests, submissions: seq<EthSubmission>)
    requires p.chain == Ethereum && OneDueRow(p, node, row) && Ended(p, result, [row], done, after)
    requires EthSubmitted(p, DueRows(p, [row][..done]), submissions)
    ensures row.id in after
    ensures if EthSlots.SomeShort(QuorumRows(p.signs, row), p.admins)
      then result == Panicked && submissions == [] && after[row.id].status == NEW
      else result == Finished && submissions == [EthSubmissionFor(p.signs, row, p.admins)]
           && after[row.id].status == SUCCESS
  {
    RowLaw(p, node, row);
    Outcome(p, node, row, result, done, after);
    OneDue(p, row);
  }

  lemma {:induction false} WavesOutcome(p: FinalPass, node: Node, row: Request, result: PassResult, done: nat,
                                        after: Requests, submissions: seq<WavesSubmission>)
    requires p.chain == Waves && OneDueRow(p, node, row) && Ended(p, result, [row], done, after)
    requires WavesSubmitted(p, DueRows(p, [row][..if done < 1 then done + 1 else done]), submissions)
    ensures result == Finished && submissions == [WavesSubmissionFor(p.signs, row, p.admins)]
    ensures row.id in after && after[row.id].status == SUCCESS
  {
    RowLaw(p, node, row);
    Outcome(p, node, row, result, done, after);
    OneDue(p, row);
  }

  /** One finalizing turn then submits the request, whatever the quorum up to the number of
      validators, and saves it as Success: on Ethereum, unless a signature is short, at which
      the program panics; */
  method SubmitOnEthereum(cfgs: seq<Config>, order: Order, visits: seq<Visit>, m: nat, ips: seq<string>,
                          admins: seq<string>)
    returns (node: Validator.Validator, votes: seq<Sign>, result: PassResult, submissions: seq<EthSubmission>)
    requires DistinctOracles(cfgs) && AllAccept(cfgs, order, visits) && m < |cfgs| == |ips| && Distinct(ips)
    requires order.EthOrder? && |admins| == 5 && cfgs[m].bftCoefficient <= |cfgs|
    ensures |votes| == |cfgs| && forall v :: 0 <= v < |cfgs| ==> votes[v] == Own(cfgs[v], order, visits[v])
    ensures Complete(votes, node.signs) && RowOf(order).id in node.requests
    ensures if EthSlots.SomeShort(QuorumRows(node.signs, RowOf(order)), admins)
      then result == Panicked && submissions == [] && node.requests[RowOf(order).id].status == NEW
      else result == Finished && submissions == [EthSubmissionFor(node.signs, RowOf(order), admins)]
           && node.requests[RowOf(order).id].status == SUCCESS
  {
    var row := RowOf(order);
    node, votes := Gather(cfgs, order, visits, m, ips);
    Hex.EthIdOfHash(order.hash);
    var replies := (r: Request) => FinalReply(Some(NEW), Sent);
    ghost var p := FinalPass(Ethereum, cfgs[m], node.signs, node.requests, admins, replies);
    var rows, done;
    result, submissions, rows, done := node.FinalizeEthRequest(admins, replies);
    OnlyOne(rows, row, Some(Ethereum));
    assert row in [row];
    EthOutcome(p, node.State(), row, result, done, node.requests, submissions);
  }

  /** and on Waves always. */
  method SubmitOnWaves(cfgs: seq<Config>, order: Order, visits: seq<Visit>, m: nat, ips: seq<string>,
                       admins: seq<string>)
    returns (node: Validator.Validator, votes: seq<Sign>, result: PassResult, submissions: seq<WavesSubmission>)
    requires DistinctOracles(cfgs) && AllAccept(cfgs, order, visits) && m < |cfgs| == |ips| && Distinct(ips)
    requires order.WavesOrder? && cfgs[m].bftCoefficient <= |cfgs|
    ensures |votes| == |cfgs| && forall v :: 0 <= v < |cfgs| ==> votes[v] == Own(cfgs[v], order, visits[v])
    ensures Complete(votes, node.signs)
    ensures result == Finished && submissions == [WavesSubmissionFor(node.signs, RowOf(order), admins)]
    ensures RowOf(order).id in node.requests && node.requests[RowOf(order).id].status == SUCCESS
  {
    var row := RowOf(order);
    node, votes := Gather(cfgs, order, visits, m, ips);
    var replies := (r: Request) => FinalReply(Some(NEW), Sent);
    ghost var p := FinalPass(Waves, cfgs[m], node.signs, node.requests, admins, replies);
    var rows, done;
    result, submissions, rows, done := node.FinalizeWavesRequest(true, admins, replies);
    OnlyOne(rows, row, Some(Waves));
    assert row in [row];
    WavesOutcome(p, node.State(), row, result, done, node.requests, submissions);
  }
}
