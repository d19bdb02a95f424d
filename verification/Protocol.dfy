/** N validators running the same code, their three loops interleaved at will, and a network
    that may delay, repeat or lose a reply but not alter it. */
module Protocol {
  import opened Models
  import opened Node
  import opened NodeInvariant
  import opened TokenPairs
  import Hex
  import Messages

  datatype Reply = Reply(requestHash: string, sign: Sign)

  /** A status change handed to a chain: by whom, for which row, and the rows its quorum
      test counted. */
  datatype Submission = Submission(node: nat, row: Request, rows: seq<Sign>)

  datatype System = System(nodes: seq<Node>, wire: set<Reply>, log: seq<Submission>)

  datatype Step =
    | Local(n: nat, act: Act)
    | Serve(n: nat, requestHash: string)

  /** The only assumption about the configurations. */
  ghost predicate DistinctOracles(cfgs: seq<Config>) {
    && (forall v :: 0 <= v < |cfgs| ==> NamedOracles(cfgs[v]))
    && (forall v, w, chain :: 0 <= v < w < |cfgs| ==> Oracle(cfgs[v], chain) != Oracle(cfgs[w], chain))
  }

  function Start(cfgs: seq<Config>): System {
    System(seq(|cfgs|, _ => EMPTY), {}, [])
  }

  predicate Enabled(s: System, step: Step) {
    && step.n < |s.nodes|
    && (step.Local? && step.act.Receive? ==> Reply(step.act.row.id, step.act.reply) in s.wire)
  }

  function Next(cfgs: seq<Config>, s: System, step: Step): System
    requires |s.nodes| == |cfgs|
  {
    if !Enabled(s, step) then s
    else
      var cfg, node := cfgs[step.n], s.nodes[step.n];
      match step
      case Local(n, act) =>
        var log :=
          if act.Submit? && CanSubmit(cfg, node, act.row)
          then s.log + [Submission(n, act.row, QuorumRows(node.signs, act.row))]
          else s.log;
        System(s.nodes[n := Apply(cfg, node, act)], s.wire, log)
      case Serve(_, requestHash) =>
        match HandleGetSign(cfg, node.requests, node.signs, requestHash)
        case None => s
        case Some(sign) => s.(wire := s.wire + {Reply(requestHash, sign)})
  }

  function RunAll(cfgs: seq<Config>, s: System, steps: seq<Step>): (r: System)
    requires |s.nodes| == |cfgs|
    ensures |r.nodes| == |cfgs|
  {
    if steps == [] then s
    else Next(cfgs, RunAll(cfgs, s, steps[..|steps| - 1]), steps[|steps| - 1])
  }

  // ----- the invariant -----

  /** The row is the one validator v stored for itself, for a request it had cached, with
      status Success and its own signature over this request. */
  ghost predicate Owned(cfgs: seq<Config>, nodes: seq<Node>, v: nat, row: Sign) {
    && v < |nodes| && v < |cfgs|
    && row in nodes[v].signs
    && row.requestId in nodes[v].requests
    && row.requestId in nodes[v].accepted
    && row.validatorAddress == Oracle(cfgs[v], nodes[v].requests[row.requestId].chain)
    && row.validatorAddress != ""
    && row.status == SUCCESS
    && match nodes[v].requests[row.requestId].chain
       case Ethereum => AuthenticEthRow(cfgs[v], row)
       case Waves => AuthenticWavesRow(cfgs[v], row)
  }

  ghost predicate AuthenticWavesRow(cfg: Config, row: Sign) {
    exists nonce :: cfg.wavesSign(Messages.FormatWavesMsg(row.requestId, SUCCESS), nonce)
                    == Some(SignedText(row.validatorPubKey, row.sign))
  }

  ghost predicate AuthenticEthRow(cfg: Config, row: Sign) {
    var message := Messages.FormatEthMsg(row.requestId, SUCCESS);
    && message.Some?
    && row.sign == EthSignature(cfg, message.value)
    && row.validatorPubKey == cfg.ethOracle
  }

  ghost predicate HasOwner(cfgs: seq<Config>, nodes: seq<Node>, row: Sign) {
    exists v: nat :: Owned(cfgs, nodes, v, row)
  }

  ghost predicate SubmissionOk(cfgs: seq<Config>, nodes: seq<Node>, sub: Submission) {
    && sub.node < |cfgs| && sub.node < |nodes|
    && |sub.rows| >= cfgs[sub.node].bftCoefficient
    && Unique(sub.rows)
    && (forall row <- sub.rows :: row.requestId == sub.row.id && HasOwner(cfgs, nodes, row))
    && Stale(nodes[sub.node], sub.row) && sub.row.status == NEW
  }

  ghost predicate SysInv(cfgs: seq<Config>, s: System) {
    && |s.nodes| == |cfgs|
    && (forall n :: 0 <= n < |s.nodes| ==> NodeInv(cfgs[n], s.nodes[n]))
    && (forall n :: 0 <= n < |s.nodes| ==> AllOwned(cfgs, s.nodes, s.nodes[n].signs))
    && (forall reply <- s.wire :: reply.sign.requestId == reply.requestHash && HasOwner(cfgs, s.nodes, reply.sign))
    && (forall sub <- s.log :: SubmissionOk(cfgs, s.nodes, sub))
  }

  ghost predicate AllOwned(cfgs: seq<Config>, nodes: seq<Node>, signs: seq<Sign>) {
    forall row <- signs :: HasOwner(cfgs, nodes, row)
  }

  ghost predicate AllGrow(before: seq<Node>, after: seq<Node>) {
    |before| == |after| && forall n :: 0 <= n < |before| ==> Grows(before[n], after[n])
  }

  lemma OwnerStays(cfgs: seq<Config>, before: seq<Node>, after: seq<Node>, row: Sign)
    requires AllGrow(before, after) && HasOwner(cfgs, before, row)
    ensures HasOwner(cfgs, after, row)
  {
    var v: nat :| Owned(cfgs, before, v, row);
    assert Grows(before[v], after[v]);
    assert Owned(cfgs, after, v, row);
  }

  lemma AllOwnedStay(cfgs: seq<Config>, before: seq<Node>, after: seq<Node>, signs: seq<Sign>)
    requires AllGrow(before, after) && AllOwned(cfgs, before, signs)
    ensures AllOwned(cfgs, after, signs)
  {
    forall row <- signs ensures HasOwner(cfgs, after, row) {
      OwnerStays(cfgs, before, after, row);
    }
  }

  lemma SubmissionStays(cfgs: seq<Config>, before: seq<Node>, after: seq<Node>, sub: Submission)
    requires AllGrow(before, after) && SubmissionOk(cfgs, before, sub)
    ensures SubmissionOk(cfgs, after, sub)
  {
    assert AllOwned(cfgs, before, sub.rows);
    AllOwnedStay(cfgs, before, after, sub.rows);
    assert Grows(before[sub.node], after[sub.node]);
  }

  /** The row a node signs itself has an owner: the node. */
  lemma OwnRowOwned(cfgs: seq<Config>, nodes: seq<Node>, n: nat, row: Request, own: Sign, nonce: int, now: int)
    requires n < |nodes| == |cfgs| && NamedOracles(cfgs[n]) && row.id in nodes[n].accepted
    requires Stale(nodes[n], row) && OwnRow(cfgs[n], row, nonce, now) == Some(own)
    requires own in nodes[n].signs
    ensures HasOwner(cfgs, nodes, own)
  {
    assert Owned(cfgs, nodes, n, own);
  }

  /** An act appends at most one row: the node's own, or the reply it received. */
  lemma Appended(cfg: Config, node: Node, act: Act) returns (added: seq<Sign>)
    ensures Apply(cfg, node, act).signs == node.signs + added && |added| <= 1
    ensures forall row <- added ::
      || (act.Receive? && row == act.reply)
      || (act.SignOwn? && act.row in node.picked && act.row.id in Apply(cfg, node, act).accepted
          && OwnRow(cfg, act.row, act.nonce, act.now) == Some(row))
  {
    var after := Apply(cfg, node, act);
    added := if |after.signs| > |node.signs| then [after.signs[|node.signs|]] else [];
  }

  /** The row an act appends to a node's table has an owner. */
  lemma NewSignsOwned(cfgs: seq<Config>, s: System, n: nat, act: Act)
    requires SysInv(cfgs, s) && DistinctOracles(cfgs) && Enabled(s, Local(n, act))
    requires HonestReply(act)
    ensures var after := Apply(cfgs[n], s.nodes[n], act);
      AllOwned(cfgs, s.nodes[n := after], after.signs)
  {
    var node, after := s.nodes[n], Apply(cfgs[n], s.nodes[n], act);
    var nodes := s.nodes[n := after];
    StepGrows(cfgs, s, n, act);
    AllOwnedStay(cfgs, s.nodes, nodes, node.signs);
    var added := Appended(cfgs[n], node, act);
    forall row <- added ensures HasOwner(cfgs, nodes, row) {
      if act.Receive? {
        assert Reply(act.row.id, act.reply) in s.wire;
        OwnerStays(cfgs, s.nodes, nodes, act.reply);
      } else {
        assert Stale(node, act.row) && Grows(node, after);
        OwnRowOwned(cfgs, nodes, n, act.row, row, act.nonce, act.now);
      }
    }
  }

  lemma StepGrows(cfgs: seq<Config>, s: System, n: nat, act: Act)
    requires SysInv(cfgs, s) && DistinctOracles(cfgs) && n < |s.nodes| && HonestReply(act)
    ensures AllGrow(s.nodes, s.nodes[n := Apply(cfgs[n], s.nodes[n], act)])
    ensures NodeInv(cfgs[n], Apply(cfgs[n], s.nodes[n], act))
  {
    ApplyKeeps(cfgs[n], s.nodes[n], act);
  }

  /** The handler is what makes replies honest: the row stored for the asked request under
      the node's own address, and no other. */
  lemma ServedRowOwned(cfgs: seq<Config>, s: System, n: nat, requestHash: string)
    requires SysInv(cfgs, s) && n < |s.nodes|
    ensures var r := HandleGetSign(cfgs[n], s.nodes[n].requests, s.nodes[n].signs, requestHash);
      r.Some? ==> r.value.requestId == requestHash && HasOwner(cfgs, s.nodes, r.value)
  {
    assert AllOwned(cfgs, s.nodes, s.nodes[n].signs);
  }

  lemma WireIsHonest(cfgs: seq<Config>, s: System, step: Step)
    requires SysInv(cfgs, s) && Enabled(s, step) && step.Local?
    ensures HonestReply(step.act)
  {
    if step.act.Receive? {
      var reply := Reply(step.act.row.id, step.act.reply);
      assert HasOwner(cfgs, s.nodes, reply.sign);
    }
  }

  lemma SubmitRecorded(cfgs: seq<Config>, s: System, n: nat, row: Request)
    requires SysInv(cfgs, s) && n < |s.nodes| && CanSubmit(cfgs[n], s.nodes[n], row)
    ensures SubmissionOk(cfgs, s.nodes, Submission(n, row, QuorumRows(s.nodes[n].signs, row)))
  {
    var node := s.nodes[n];
    UniqueSignsFor(node.signs, row.id, if row.chain == Ethereum then Some(SUCCESS) else None);
    assert Stale(node, row);
    assert RowOk(cfgs[n], node.requests[row.id], node.sightings[row.id], node.ethTop);
    assert AllOwned(cfgs, s.nodes, node.signs);
  }

  /** Nodes that only grew, with owners for the signatures they hold now. */
  lemma GrownKeeps(cfgs: seq<Config>, s: System, nodes: seq<Node>, log: seq<Submission>)
    requires SysInv(cfgs, s) && AllGrow(s.nodes, nodes)
    requires forall n :: 0 <= n < |nodes| ==> NodeInv(cfgs[n], nodes[n])
    requires forall n :: 0 <= n < |nodes| ==> nodes[n].signs == s.nodes[n].signs || AllOwned(cfgs, nodes, nodes[n].signs)
    requires forall sub <- log :: sub in s.log || SubmissionOk(cfgs, s.nodes, sub)
    ensures SysInv(cfgs, System(nodes, s.wire, log))
  {
    forall n | 0 <= n < |nodes| ensures AllOwned(cfgs, nodes, nodes[n].signs) {
      if nodes[n].signs == s.nodes[n].signs {
        AllOwnedStay(cfgs, s.nodes, nodes, s.nodes[n].signs);
      }
    }
    forall reply <- s.wire ensures HasOwner(cfgs, nodes, reply.sign) {
      OwnerStays(cfgs, s.nodes, nodes, reply.sign);
    }
    forall sub <- log ensures SubmissionOk(cfgs, nodes, sub) {
      SubmissionStays(cfgs, s.nodes, nodes, sub);
    }
  }

  /** The log after an act, and the nodes: only node n has changed. */
  lemma AfterLocal(cfgs: seq<Config>, s: System, n: nat, act: Act)
    requires SysInv(cfgs, s) && Enabled(s, Local(n, act))
    ensures var next := Next(cfgs, s, Local(n, act));
      && next.wire == s.wire
      && next.nodes == s.nodes[n := Apply(cfgs[n], s.nodes[n], act)]
      && forall sub <- next.log :: sub in s.log || SubmissionOk(cfgs, s.nodes, sub)
  {
    if act.Submit? && CanSubmit(cfgs[n], s.nodes[n], act.row) {
      SubmitRecorded(cfgs, s, n, act.row);
    }
  }

  lemma LocalKeeps(cfgs: seq<Config>, s: System, n: nat, act: Act)
    requires SysInv(cfgs, s) && DistinctOracles(cfgs) && Enabled(s, Local(n, act))
    ensures SysInv(cfgs, Next(cfgs, s, Local(n, act)))
    ensures AllGrow(s.nodes, Next(cfgs, s, Local(n, act)).nodes)
  {
    WireIsHonest(cfgs, s, Local(n, act));
    StepGrows(cfgs, s, n, act);
    NewSignsOwned(cfgs, s, n, act);
    AfterLocal(cfgs, s, n, act);
    var next := Next(cfgs, s, Local(n, act));
    GrownKeeps(cfgs, s, next.nodes, next.log);
  }

  lemma ServeKeeps(cfgs: seq<Config>, s: System, n: nat, requestHash: string)
    requires SysInv(cfgs, s) && n < |s.nodes|
    ensures SysInv(cfgs, Next(cfgs, s, Serve(n, requestHash)))
  {
    ServedRowOwned(cfgs, s, n, requestHash);
    var next := Next(cfgs, s, Serve(n, requestHash));
    assert next.nodes == s.nodes && next.log == s.log;
    forall reply <- next.wire
      ensures reply.sign.requestId == reply.requestHash && HasOwner(cfgs, s.nodes, reply.sign)
    {
      assert reply in s.wire || reply.requestHash == requestHash;
    }
  }

  lemma NextKeeps(cfgs: seq<Config>, s: System, step: Step)
    requires SysInv(cfgs, s) && DistinctOracles(cfgs)
    ensures SysInv(cfgs, Next(cfgs, s, step)) && AllGrow(s.nodes, Next(cfgs, s, step).nodes)
  {
    if Enabled(s, step) {
      match step
      case Local(n, act) => LocalKeeps(cfgs, s, n, act);
      case Serve(n, requestHash) => ServeKeeps(cfgs, s, n, requestHash);
    }
  }

  /** The invariant holds after every sequence of steps. */
  lemma {:induction false} RunKeeps(cfgs: seq<Config>, s: System, steps: seq<Step>)
    requires SysInv(cfgs, s) && DistinctOracles(cfgs)
    ensures SysInv(cfgs, RunAll(cfgs, s, steps)) && AllGrow(s.nodes, RunAll(cfgs, s, steps).nodes)
  {
    if steps != [] {
      var init := steps[..|steps| - 1];
      RunKeeps(cfgs, s, init);
      NextKeeps(cfgs, RunAll(cfgs, s, init), steps[|steps| - 1]);
      var mid, end := RunAll(cfgs, s, init), RunAll(cfgs, s, steps);
      forall n | 0 <= n < |s.nodes| ensures Grows(s.nodes[n], end.nodes[n]) {
        GrowsTransitive(s.nodes[n], mid.nodes[n], end.nodes[n]);
      }
    }
  }

  /** The acts of one node as steps of the system. */
  function LocalSteps(n: nat, acts: seq<Act>): (steps: seq<Step>)
    ensures |steps| == |acts| && forall i :: 0 <= i < |acts| ==> steps[i] == Local(n, acts[i])
  {
    seq(|acts|, i requires 0 <= i < |acts| => Local(n, acts[i]))
  }

  /** One node going through a history with replies already on the wire, while the others
      stand still. */
  lemma {:induction false} AloneIsRun(cfgs: seq<Config>, s: System, n: nat, acts: seq<Act>)
    requires |s.nodes| == |cfgs| && n < |s.nodes|
    requires forall act <- acts :: act.Receive? ==> Reply(act.row.id, act.reply) in s.wire
    ensures RunAll(cfgs, s, LocalSteps(n, acts)).nodes == s.nodes[n := Run(cfgs[n], s.nodes[n], acts)]
    ensures RunAll(cfgs, s, LocalSteps(n, acts)).wire == s.wire
  {
    if acts != [] {
      var init := acts[..|acts| - 1];
      assert LocalSteps(n, acts)[..|acts| - 1] == LocalSteps(n, init);
      assert acts[|acts| - 1] in acts;
      AloneIsRun(cfgs, s, n, init);
    }
  }

  // ----- a node's own view of a run -----

  /** No step is taken before it is possible: a reply is received after it was served. */
  ghost predicate AllEnabled(cfgs: seq<Config>, s: System, steps: seq<Step>)
    requires |s.nodes| == |cfgs|
  {
    forall k :: 0 <= k < |steps| ==> Enabled(RunAll(cfgs, s, steps[..k]), steps[k])
  }

  /** The database operations of node n among the steps. */
  function ActsOf(steps: seq<Step>, n: nat): seq<Act> {
    if steps == [] then []
    else
      var init, last := ActsOf(steps[..|steps| - 1], n), steps[|steps| - 1];
      if last.Local? && last.n == n then init + [last.act] else init
  }

  lemma AllEnabledInit(cfgs: seq<Config>, s: System, steps: seq<Step>, last: Step)
    requires |s.nodes| == |cfgs|
    ensures AllEnabled(cfgs, s, steps + [last]) <==>
      AllEnabled(cfgs, s, steps) && Enabled(RunAll(cfgs, s, steps), last)
  {
    var all := steps + [last];
    assert forall k :: 0 <= k < |steps| ==> all[..k] == steps[..k] && all[k] == steps[k];
    assert all[..|steps|] == steps && all[|steps|] == last;
  }

  /** In a run of any interleaving, with peers signing and serving meanwhile, each node's
      tables are what its own operations make of them: a history of one node is what it sees
      of a run. */
  lemma {:induction false} HistoryIsRun(cfgs: seq<Config>, s: System, steps: seq<Step>, n: nat)
    requires |s.nodes| == |cfgs| && n < |s.nodes| && AllEnabled(cfgs, s, steps)
    ensures RunAll(cfgs, s, steps).nodes[n] == Run(cfgs[n], s.nodes[n], ActsOf(steps, n))
  {
    if steps != [] {
      var init, last := steps[..|steps| - 1], steps[|steps| - 1];
      assert steps == init + [last];
      AllEnabledInit(cfgs, s, init, last);
      HistoryIsRun(cfgs, s, init, n);
      if last.Local? && last.n == n {
        RunSnoc(cfgs[n], s.nodes[n], ActsOf(init, n), last.act);
      }
    }
  }

  /** The step of the run that is operation k of node n. */
  lemma {:induction false} StepOfAct(steps: seq<Step>, n: nat, k: nat) returns (j: nat)
    requires k < |ActsOf(steps, n)|
    ensures j < |steps| && steps[j] == Local(n, ActsOf(steps, n)[k])
    ensures ActsOf(steps[..j], n) == ActsOf(steps, n)[..k]
  {
    var init := steps[..|steps| - 1];
    if k < |ActsOf(init, n)| {
      j := StepOfAct(init, n, k);
      assert init[..j] == steps[..j];
    } else {
      j := |steps| - 1;
    }
  }

  lemma {:induction false} LogGrows(cfgs: seq<Config>, s: System, steps: seq<Step>)
    requires |s.nodes| == |cfgs|
    ensures s.log <= RunAll(cfgs, s, steps).log
  {
    if steps != [] {
      LogGrows(cfgs, s, steps[..|steps| - 1]);
    }
  }

  lemma StartOk(cfgs: seq<Config>)
    ensures SysInv(cfgs, Start(cfgs))
  {
  }

  // ----- theorems about all runs -----

  ghost predicate Reachable(cfgs: seq<Config>, s: System) {
    exists steps :: s == RunAll(cfgs, Start(cfgs), steps)
  }

  lemma ReachableOk(cfgs: seq<Config>, s: System)
    requires DistinctOracles(cfgs) && Reachable(cfgs, s)
    ensures SysInv(cfgs, s)
  {
    var steps :| s == RunAll(cfgs, Start(cfgs), steps);
    StartOk(cfgs);
    RunKeeps(cfgs, Start(cfgs), steps);
  }

  /** Every signature row in any table is the row its named validator stored for itself. */
  lemma Provenance(cfgs: seq<Config>, s: System, n: nat, row: Sign) returns (v: nat)
    requires DistinctOracles(cfgs) && Reachable(cfgs, s)
    requires n < |s.nodes| && row in s.nodes[n].signs
    ensures Owned(cfgs, s.nodes, v, row)
  {
    ReachableOk(cfgs, s);
    assert AllOwned(cfgs, s.nodes, s.nodes[n].signs);
    v :| Owned(cfgs, s.nodes, v, row);
  }

  /** No table holds two rows of one validator for one request, and two nodes that hold one
      hold the same one. */
  lemma Agreement(cfgs: seq<Config>, s: System, n: nat, i: nat, m: nat, j: nat)
    requires DistinctOracles(cfgs) && Reachable(cfgs, s)
    requires n < |s.nodes| && m < |s.nodes| && i < |s.nodes[n].signs| && j < |s.nodes[m].signs|
    requires var a, b := s.nodes[n].signs[i], s.nodes[m].signs[j];
      a.requestId == b.requestId && a.validatorAddress == b.validatorAddress
    ensures s.nodes[n].signs[i] == s.nodes[m].signs[j]
    ensures n == m ==> i == j
  {
    var a, b := s.nodes[n].signs[i], s.nodes[m].signs[j];
    ReachableOk(cfgs, s);
    assert NodeInv(cfgs[n], s.nodes[n]);
    var v := Provenance(cfgs, s, n, a);
    var w := Provenance(cfgs, s, m, b);
    assert NodeInv(cfgs[v], s.nodes[v]) && NodeInv(cfgs[w], s.nodes[w]);
    ChainOfId(cfgs[v], s.nodes[v], a.requestId);
    ChainOfId(cfgs[w], s.nodes[w], b.requestId);
    assert v == w;
    assert Unique(s.nodes[v].signs);
  }

  lemma ChainOfId(cfg: Config, node: Node, id: string)
    requires NodeInv(cfg, node) && id in node.requests
    ensures node.requests[id].chain == if Hex.IsEthId(id) then Ethereum else Waves
  {
    assert RowOk(cfg, node.requests[id], node.sightings[id], node.ethTop);
  }

  /** Validator v signed Success for this request, after caching it itself while it stood in
      the window of the chain it lives on, and under a view in which both contracts listed
      its token pair as active. */
  ghost predicate Vouches(cfgs: seq<Config>, s: System, v: nat, row: Request) {
    && v < |s.nodes| == |cfgs|
    && row.id in s.nodes[v].requests
    && s.nodes[v].requests[row.id].chain == row.chain
    && row.id in s.nodes[v].sightings
    && (var sighting := s.nodes[v].sightings[row.id];
        && s.nodes[v].requests[row.id].createdAt == ToInt32(sighting.rqHeight)
        && 0 <= sighting.rqHeight <= sighting.observed - Depth(cfgs[v], row.chain)
        && sighting.observed <= sighting.rqHeight + cfgs[v].rqTimeout)
    && row.id in s.nodes[v].accepted
    && PairListed(cfgs[v].addressing, s.nodes[v].accepted[row.id], s.nodes[v].requests[row.id])
    && exists sign :: Owned(cfgs, s.nodes, v, sign) && sign.requestId == row.id
  }

  lemma OwnerVouches(cfgs: seq<Config>, s: System, sub: Submission, v: nat, sign: Sign)
    requires SysInv(cfgs, s) && sub in s.log && Owned(cfgs, s.nodes, v, sign) && sign.requestId == sub.row.id
    ensures Vouches(cfgs, s, v, sub.row)
  {
    assert SubmissionOk(cfgs, s.nodes, sub);
    var node := s.nodes[v];
    ChainOfId(cfgs[v], node, sub.row.id);
    ChainOfId(cfgs[sub.node], s.nodes[sub.node], sub.row.id);
    assert RowOk(cfgs[v], node.requests[sub.row.id], node.sightings[sub.row.id], node.ethTop);
    assert Vetted(cfgs[v], node, sub.row.id);
    AcceptsIffListed(cfgs[v].addressing, node.accepted[sub.row.id], node.requests[sub.row.id]);
  }

  /** Rows of one request with pairwise different addresses have as many owners. */
  lemma {:induction false} DistinctOwners(cfgs: seq<Config>, nodes: seq<Node>, id: string, rows: seq<Sign>,
                                          owners: set<nat>)
    requires Unique(rows)
    requires forall row <- rows :: row.requestId == id && exists v :: v in owners && Owned(cfgs, nodes, v, row)
    ensures |rows| <= |owners|
  {
    if rows != [] {
      var last, init := rows[|rows| - 1], rows[..|rows| - 1];
      assert last in rows;
      var v :| v in owners && Owned(cfgs, nodes, v, last);
      forall row <- init ensures exists w :: w in owners - {v} && Owned(cfgs, nodes, w, row) {
        var w :| w in owners && Owned(cfgs, nodes, w, row);
        assert w != v;
      }
      DistinctOwners(cfgs, nodes, id, init, owners - {v});
    }
  }

  /** The owners of the first k rows. */
  lemma {:induction false} Owners(cfgs: seq<Config>, nodes: seq<Node>, rows: seq<Sign>, k: nat)
    returns (owners: set<nat>)
    requires k <= |rows| && forall row <- rows :: HasOwner(cfgs, nodes, row)
    ensures forall v <- owners :: exists row :: row in rows && Owned(cfgs, nodes, v, row)
    ensures forall row <- rows[..k] :: exists v :: v in owners && Owned(cfgs, nodes, v, row)
    decreases k
  {
    owners := {};
    if k > 0 {
      owners := Owners(cfgs, nodes, rows, k - 1);
      var last := rows[k - 1];
      assert last in rows;
      var v: nat :| Owned(cfgs, nodes, v, last);
      assert rows[..k] == rows[..k - 1] + [last];
      owners := owners + {v};
      assert v in owners;
    }
  }

  lemma EnoughVoters(cfgs: seq<Config>, s: System, sub: Submission) returns (voters: set<nat>)
    requires SysInv(cfgs, s) && sub in s.log
    ensures |voters| >= |sub.rows|
    ensures forall v <- voters :: Vouches(cfgs, s, v, sub.row)
  {
    assert SubmissionOk(cfgs, s.nodes, sub);
    voters := Owners(cfgs, s.nodes, sub.rows, |sub.rows|);
    assert sub.rows[..|sub.rows|] == sub.rows;
    DistinctOwners(cfgs, s.nodes, sub.row.id, sub.rows, voters);
    forall v <- voters ensures Vouches(cfgs, s, v, sub.row) {
      var row :| row in sub.rows && Owned(cfgs, s.nodes, v, row);
      OwnerVouches(cfgs, s, sub, v, row);
    }
  }

  /** Quorum safety: whenever a status change was submitted, for a row read as New, at least
      bftCoefficient different validators vouch for the request. */
  lemma QuorumSafety(cfgs: seq<Config>, s: System, sub: Submission) returns (voters: set<nat>)
    requires DistinctOracles(cfgs) && Reachable(cfgs, s) && sub in s.log
    ensures sub.node < |cfgs| && |voters| >= cfgs[sub.node].bftCoefficient && sub.row.status == NEW
    ensures forall v <- voters :: Vouches(cfgs, s, v, sub.row)
  {
    ReachableOk(cfgs, s);
    voters := EnoughVoters(cfgs, s, sub);
    assert SubmissionOk(cfgs, s.nodes, sub);
  }

  lemma {:induction false} RunAppend(cfgs: seq<Config>, s: System, first: seq<Step>, second: seq<Step>)
    requires |s.nodes| == |cfgs|
    ensures RunAll(cfgs, s, first + second) == RunAll(cfgs, RunAll(cfgs, s, first), second)
  {
    if second == [] {
      assert first + second == first;
    } else {
      var all := first + second;
      assert all[..|all| - 1] == first + second[..|second| - 1];
      RunAppend(cfgs, s, first, second[..|second| - 1]);
    }
  }

  lemma AllEnabledPrefix(cfgs: seq<Config>, s: System, steps: seq<Step>, j: nat)
    requires |s.nodes| == |cfgs| && AllEnabled(cfgs, s, steps) && j <= |steps|
    ensures AllEnabled(cfgs, s, steps[..j])
  {
    assert forall i :: 0 <= i < j ==> steps[..j][..i] == steps[..i];
  }

  lemma LogGrowsFrom(cfgs: seq<Config>, s: System, steps: seq<Step>, j: nat)
    requires |s.nodes| == |cfgs| && j < |steps|
    ensures Next(cfgs, RunAll(cfgs, s, steps[..j]), steps[j]).log <= RunAll(cfgs, s, steps).log
  {
    var upTo, rest := steps[..j + 1], steps[j + 1..];
    assert upTo[..j] == steps[..j] && upTo[j] == steps[j];
    assert steps == upTo + rest;
    var mid := RunAll(cfgs, s, upTo);
    assert mid == Next(cfgs, RunAll(cfgs, s, steps[..j]), steps[j]);
    RunAppend(cfgs, s, upTo, rest);
    LogGrows(cfgs, mid, rest);
  }

  lemma NextLogs(cfgs: seq<Config>, s: System, n: nat, row: Request, sent: bool)
    requires |s.nodes| == |cfgs| && n < |cfgs| && CanSubmit(cfgs[n], s.nodes[n], row)
    ensures Submission(n, row, QuorumRows(s.nodes[n].signs, row)) in Next(cfgs, s, Local(n, Submit(row, sent))).log
  {
  }

  /** A submission in a node's history is a submission of the run, with the rows counted by
      that node at that time. */
  lemma SubmitIsLogged(cfgs: seq<Config>, steps: seq<Step>, n: nat, k: nat, node: Node, row: Request, sent: bool)
    requires n < |cfgs| && AllEnabled(cfgs, Start(cfgs), steps)
    requires k < |ActsOf(steps, n)| && ActsOf(steps, n)[k] == Submit(row, sent)
    requires node == Run(cfgs[n], EMPTY, ActsOf(steps, n)[..k]) && CanSubmit(cfgs[n], node, row)
    ensures Submission(n, row, QuorumRows(node.signs, row)) in RunAll(cfgs, Start(cfgs), steps).log
  {
    var j := StepOfAct(steps, n, k);
    AllEnabledPrefix(cfgs, Start(cfgs), steps, j);
    HistoryIsRun(cfgs, Start(cfgs), steps[..j], n);
    NextLogs(cfgs, RunAll(cfgs, Start(cfgs), steps[..j]), n, row, sent);
    LogGrowsFrom(cfgs, Start(cfgs), steps, j);
  }

  /** However a run goes on, no request row disappears, no field of it other than the status
      ever differs from its value at insertion, and no signature row goes or changes. */
  lemma NothingIsLost(cfgs: seq<Config>, first: seq<Step>, second: seq<Step>)
    requires DistinctOracles(cfgs)
    ensures AllGrow(RunAll(cfgs, Start(cfgs), first).nodes, RunAll(cfgs, Start(cfgs), first + second).nodes)
  {
    StartOk(cfgs);
    RunKeeps(cfgs, Start(cfgs), first);
    RunKeeps(cfgs, RunAll(cfgs, Start(cfgs), first), second);
    RunAppend(cfgs, Start(cfgs), first, second);
  }

  /** The window of EthPassLeavesWindow, in every run. */
  lemma WindowAfterEveryPass(cfgs: seq<Config>, s: System, n: nat, height: int, id: string)
    requires DistinctOracles(cfgs) && Reachable(cfgs, s) && n < |s.nodes|
    requires |s.nodes| == |cfgs| && height >= s.nodes[n].ethTop
    requires var after := Next(cfgs, s, Local(n, EthSweep(height))).nodes[n];
      id in after.requests && after.requests[id].chain == Ethereum && after.requests[id].status == NEW
    ensures var row := Next(cfgs, s, Local(n, EthSweep(height))).nodes[n].requests[id];
      height - cfgs[n].rqTimeout < row.createdAt <= height - cfgs[n].ethDepth
  {
    ReachableOk(cfgs, s);
    EthPassLeavesWindow(cfgs[n], s.nodes[n], height);
  }
}
