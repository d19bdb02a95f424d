/** Runs with submissions exist: any number of validators that accept a request can get it
    submitted by any of them. */
module QuorumRuns {
  import opened Models
  import opened Node
  import opened NodeInvariant
  import opened Protocol
  import opened TokenPairs
  import Hex

  /** A request as its chain shows it. */
  datatype Order = EthOrder(hash: seq<Byte>, rq: EthRequest) | WavesOrder(id: string, item: WavesItem)

  /** What one validator is answered when it handles the request. */
  datatype Visit = Visit(height: int, view: View, nonce: int, now: int)

  function RowOf(order: Order): Request {
    match order
    case EthOrder(hash, rq) => EthRow(hash, rq)
    case WavesOrder(id, item) => WavesRow(id, item)
  }

  function Look(order: Order, height: int): Act {
    match order
    case EthOrder(hash, rq) => EthLook(hash, rq, height)
    case WavesOrder(id, item) => WavesLook(id, item, height)
  }

  function Caching(order: Order, visit: Visit): seq<Act> {
    [Look(order, visit.height), if order.EthOrder? then EthWrite else WavesWrite]
  }

  /** Cache, read, sign. */
  function Handling(order: Order, visit: Visit): seq<Act> {
    Caching(order, visit) + [Pick] + [SignOwn(RowOf(order), visit.view, visit.nonce, visit.now)]
  }

  ghost predicate InWindow(cfg: Config, order: Order, height: int) {
    match order
    case EthOrder(hash, rq) =>
      |hash| == 32 && 0 <= rq.height && rq.height + cfg.ethDepth <= height <= rq.height + cfg.rqTimeout
    case WavesOrder(id, item) =>
      && id != "" && !Hex.IsEthId(id) && 0 <= item.height
      && item.height + cfg.wavesDepth <= height <= item.height + cfg.rqTimeout
  }

  /** The request is New and in the window, its pair is accepted, and it can be signed. */
  ghost predicate Acceptable(cfg: Config, order: Order, visit: Visit) {
    && RowOf(order).status == NEW && InWindow(cfg, order, visit.height)
    && Accepts(cfg.addressing, visit.view, RowOf(order))
    && OwnRow(cfg, RowOf(order), visit.nonce, visit.now).Some?
  }

  ghost predicate AllAccept(cfgs: seq<Config>, order: Order, visits: seq<Visit>) {
    |visits| == |cfgs| && forall v :: 0 <= v < |cfgs| ==> Acceptable(cfgs[v], order, visits[v])
  }

  function Own(cfg: Config, order: Order, visit: Visit): Sign
    requires OwnRow(cfg, RowOf(order), visit.nonce, visit.now).Some?
  {
    OwnRow(cfg, RowOf(order), visit.nonce, visit.now).value
  }

  // ----- one validator handles the request -----

  /** A node that knows this request only, and has signed it. */
  ghost predicate Ready(node: Node, row: Request, own: Sign) {
    && node.requests == map[row.id := row] && node.picked == {row} && node.signs == [own]
    && own.requestId == row.id && own.status == SUCCESS
  }

  lemma Cached(cfg: Config, order: Order, visit: Visit)
    requires Acceptable(cfg, order, visit)
    ensures RowOf(order).id != ""
    ensures var node := Run(cfg, EMPTY, Caching(order, visit));
      node.requests == map[RowOf(order).id := RowOf(order)] && node.signs == [] && node.picked == {}
  {
    var acts := Caching(order, visit);
    assert acts == [acts[0], acts[1]];
    TwoActs(cfg, acts[0], acts[1]);
    if order.EthOrder? { Hex.EthIdOfHash(order.hash); }
  }

  lemma Handled(cfg: Config, order: Order, visit: Visit)
    requires NamedOracles(cfg) && Acceptable(cfg, order, visit)
    ensures Ready(Run(cfg, EMPTY, Handling(order, visit)), RowOf(order), Own(cfg, order, visit))
  {
    var row, acts := RowOf(order), Caching(order, visit);
    var sign := SignOwn(row, visit.view, visit.nonce, visit.now);
    Cached(cfg, order, visit);
    RunSnoc(cfg, EMPTY, acts, Pick);
    RunSnoc(cfg, EMPTY, acts + [Pick], sign);
    PickAndSign(cfg, Run(cfg, EMPTY, acts), row, visit);
  }

  lemma PickAndSign(cfg: Config, cached: Node, row: Request, visit: Visit)
    requires NamedOracles(cfg) && row.id != "" && row.status == NEW
    requires cached.requests == map[row.id := row] && cached.signs == [] && cached.picked == {}
    requires Accepts(cfg.addressing, visit.view, row) && OwnRow(cfg, row, visit.nonce, visit.now).Some?
    ensures var picked := Apply(cfg, cached, Pick);
      Ready(Apply(cfg, picked, SignOwn(row, visit.view, visit.nonce, visit.now)), row,
            OwnRow(cfg, row, visit.nonce, visit.now).value)
  {
    assert cached.requests[row.id] in NewRows(cached.requests);
    assert NewRows(cached.requests) == {row};
  }

  lemma ReadyServes(cfg: Config, node: Node, row: Request, own: Sign)
    requires Ready(node, row, own) && row.id != "" && own.validatorAddress == Oracle(cfg, row.chain)
    ensures HandleGetSign(cfg, node.requests, node.signs, row.id) == Some(own)
  {
    assert own in node.signs && Matches(own, row.id, Oracle(cfg, row.chain));
  }

  /** Node n handles the request and serves its signature; the others stand still. */
  lemma OneHandles(cfgs: seq<Config>, s: System, n: nat, order: Order, visit: Visit) returns (steps: seq<Step>)
    requires |s.nodes| == |cfgs| && n < |cfgs| && NamedOracles(cfgs[n]) && s.nodes[n] == EMPTY
    requires Acceptable(cfgs[n], order, visit)
    ensures var after := RunAll(cfgs, s, steps);
      && |after.nodes| == |s.nodes| && after.nodes == s.nodes[n := after.nodes[n]]
      && Ready(after.nodes[n], RowOf(order), Own(cfgs[n], order, visit))
      && after.wire == s.wire + {Reply(RowOf(order).id, Own(cfgs[n], order, visit))}
  {
    var acts, serve := Handling(order, visit), Serve(n, RowOf(order).id);
    AloneIsRun(cfgs, s, n, acts);
    var before := RunAll(cfgs, s, LocalSteps(n, acts));
    steps := LocalSteps(n, acts) + [serve];
    assert steps[..|acts|] == LocalSteps(n, acts);
    Cached(cfgs[n], order, visit);
    Handled(cfgs[n], order, visit);
    ReadyServes(cfgs[n], before.nodes[n], RowOf(order), Own(cfgs[n], order, visit));
  }

  // ----- all of them do -----

  /** The first k validators have handled the request, the others have done nothing. */
  ghost predicate Spread(cfgs: seq<Config>, s: System, order: Order, visits: seq<Visit>, k: nat)
    requires AllAccept(cfgs, order, visits)
  {
    && |s.nodes| == |cfgs|
    && forall v :: 0 <= v < |cfgs| ==>
         if v < k then Ready(s.nodes[v], RowOf(order), Own(cfgs[v], order, visits[v]))
                       && Reply(RowOf(order).id, Own(cfgs[v], order, visits[v])) in s.wire
         else s.nodes[v] == EMPTY
  }

  lemma SpreadOneMore(cfgs: seq<Config>, s: System, after: System, order: Order, visits: seq<Visit>, k: nat)
    requires AllAccept(cfgs, order, visits) && k < |cfgs| && Spread(cfgs, s, order, visits, k)
    requires |after.nodes| == |s.nodes| && after.nodes == s.nodes[k := after.nodes[k]]
    requires Ready(after.nodes[k], RowOf(order), Own(cfgs[k], order, visits[k]))
    requires after.wire == s.wire + {Reply(RowOf(order).id, Own(cfgs[k], order, visits[k]))}
    ensures Spread(cfgs, after, order, visits, k + 1)
  {
  }

  lemma {:induction false} AllHandle(cfgs: seq<Config>, order: Order, visits: seq<Visit>, k: nat)
    returns (steps: seq<Step>)
    requires DistinctOracles(cfgs) && AllAccept(cfgs, order, visits) && k <= |cfgs|
    ensures Spread(cfgs, RunAll(cfgs, Start(cfgs), steps), order, visits, k)
    decreases k
  {
    if k == 0 {
      steps := [];
    } else {
      var first := AllHandle(cfgs, order, visits, k - 1);
      var s := RunAll(cfgs, Start(cfgs), first);
      var next := OneHandles(cfgs, s, k - 1, order, visits[k - 1]);
      RunAppend(cfgs, Start(cfgs), first, next);
      steps := first + next;
      SpreadOneMore(cfgs, s, RunAll(cfgs, s, next), order, visits, k - 1);
    }
  }

  // ----- one of them pulls the others' signatures -----

  ghost predicate Author(cfgs: seq<Config>, row: Request, m: nat, k: nat, sign: Sign, w: nat) {
    w < |cfgs| && (w == m || w < k) && sign.validatorAddress == Oracle(cfgs[w], row.chain)
  }

  ghost predicate HasAuthor(cfgs: seq<Config>, row: Request, m: nat, k: nat, sign: Sign) {
    exists w: nat :: Author(cfgs, row, m, k, sign, w)
  }

  /** Node m holds its own signature and those of the first k validators. */
  ghost predicate Gathered(cfgs: seq<Config>, node: Node, row: Request, m: nat, k: nat) {
    && node.picked == {row}
    && |node.signs| >= k + (if m < k then 0 else 1)
    && (forall sign <- node.signs :: sign.requestId == row.id && sign.status == SUCCESS)
    && forall sign <- node.signs :: HasAuthor(cfgs, row, m, k, sign)
  }

  lemma NotHeldYet(cfgs: seq<Config>, node: Node, row: Request, m: nat, k: nat)
    requires DistinctOracles(cfgs) && m < |cfgs| && k < |cfgs| && k != m && row.id != ""
    requires Gathered(cfgs, node, row, m, k)
    ensures !Held(node.signs, row.id, Oracle(cfgs[k], row.chain))
  {
    HeldIff(node.signs, row.id, Oracle(cfgs[k], row.chain));
    forall sign <- node.signs ensures sign.validatorAddress != Oracle(cfgs[k], row.chain) {
      var w: nat :| Author(cfgs, row, m, k, sign, w);
      assert w != k;
    }
  }

  lemma GatherOneMore(cfgs: seq<Config>, node: Node, row: Request, m: nat, k: nat, own: Sign)
    requires DistinctOracles(cfgs) && m < |cfgs| && k < |cfgs| && row.id != "" && Gathered(cfgs, node, row, m, k)
    requires own.requestId == row.id && own.status == SUCCESS && own.validatorAddress == Oracle(cfgs[k], row.chain)
    ensures Gathered(cfgs, if k == m then node else Apply(cfgs[m], node, Receive(row, own)), row, m, k + 1)
  {
    var after := if k == m then node else Apply(cfgs[m], node, Receive(row, own));
    if k != m { NotHeldYet(cfgs, node, row, m, k); }
    forall sign <- after.signs ensures HasAuthor(cfgs, row, m, k + 1, sign) {
      if sign in node.signs {
        var w: nat :| Author(cfgs, row, m, k, sign, w);
        assert Author(cfgs, row, m, k + 1, sign, w);
      } else {
        assert Author(cfgs, row, m, k + 1, sign, k);
      }
    }
  }

  lemma ReceiveNext(cfgs: seq<Config>, s: System, steps: seq<Step>, m: nat, row: Request, own: Sign)
    requires |s.nodes| == |cfgs| && m < |cfgs| && Reply(row.id, own) in RunAll(cfgs, s, steps).wire
    ensures var before, after := RunAll(cfgs, s, steps), RunAll(cfgs, s, steps + [Local(m, Receive(row, own))]);
      after.nodes[m] == Apply(cfgs[m], before.nodes[m], Receive(row, own)) && after.wire == before.wire
  {
    var step := Local(m, Receive(row, own));
    assert (steps + [step])[..|steps|] == steps;
  }

  /** Everyone's signature for the row is on the wire. */
  ghost predicate OnTheWire(cfgs: seq<Config>, s: System, row: Request, owns: seq<Sign>) {
    && |s.nodes| == |cfgs| == |owns| && row.id != ""
    && forall v :: 0 <= v < |owns| ==>
         && owns[v].requestId == row.id && owns[v].status == SUCCESS
         && owns[v].validatorAddress == Oracle(cfgs[v], row.chain)
         && Reply(row.id, owns[v]) in s.wire
  }

  lemma {:induction false} PullAllOf(cfgs: seq<Config>, s: System, row: Request, owns: seq<Sign>, m: nat, k: nat)
    returns (steps: seq<Step>)
    requires DistinctOracles(cfgs) && m < |cfgs| && k <= |cfgs|
    requires OnTheWire(cfgs, s, row, owns) && Gathered(cfgs, s.nodes[m], row, m, 0)
    ensures var after := RunAll(cfgs, s, steps);
      Gathered(cfgs, after.nodes[m], row, m, k) && after.wire == s.wire
    decreases k
  {
    if k == 0 {
      steps := [];
    } else {
      var v := k - 1;
      steps := PullAllOf(cfgs, s, row, owns, m, v);
      GatherOneMore(cfgs, RunAll(cfgs, s, steps).nodes[m], row, m, v, owns[v]);
      if v != m {
        ReceiveNext(cfgs, s, steps, m, row, owns[v]);
        steps := steps + [Local(m, Receive(row, owns[v]))];
      }
    }
  }

  lemma SpreadIsOnTheWire(cfgs: seq<Config>, s: System, order: Order, visits: seq<Visit>, m: nat)
    returns (owns: seq<Sign>)
    requires DistinctOracles(cfgs) && AllAccept(cfgs, order, visits) && m < |cfgs|
    requires Spread(cfgs, s, order, visits, |cfgs|)
    ensures OnTheWire(cfgs, s, RowOf(order), owns) && Gathered(cfgs, s.nodes[m], RowOf(order), m, 0)
  {
    owns := seq(|cfgs|, v requires 0 <= v < |cfgs| => Own(cfgs[v], order, visits[v]));
    Cached(cfgs[m], order, visits[m]);
    Handled(cfgs[m], order, visits[m]);
    assert Author(cfgs, RowOf(order), m, 0, owns[m], m);
  }

  // ----- and submits -----

  lemma {:induction false} AllCounted(signs: seq<Sign>, requestId: string, status: Option<Status>)
    requires forall i :: 0 <= i < |signs| ==>
      signs[i].requestId == requestId && (status.None? || signs[i].status == status.value)
    ensures |SignsFor(signs, requestId, status)| == |signs|
  {
    if signs != [] {
      AllCounted(signs[..|signs| - 1], requestId, status);
    }
  }

  /** Whatever the quorum, up to the number of validators: a request that all of them accept
      can be cached and signed by each, pulled by any one of them and submitted with the
      signatures of all. */
  lemma QuorumCanSubmit(cfgs: seq<Config>, order: Order, visits: seq<Visit>, m: nat)
    returns (steps: seq<Step>, sub: Submission)
    requires DistinctOracles(cfgs) && AllAccept(cfgs, order, visits)
    requires m < |cfgs| && cfgs[m].bftCoefficient <= |cfgs|
    ensures sub in RunAll(cfgs, Start(cfgs), steps).log
    ensures sub.node == m && sub.row == RowOf(order) && |sub.rows| >= |cfgs|
  {
    var row := RowOf(order);
    var first := AllHandle(cfgs, order, visits, |cfgs|);
    var s := RunAll(cfgs, Start(cfgs), first);
    var owns := SpreadIsOnTheWire(cfgs, s, order, visits, m);
    var second := PullAllOf(cfgs, s, row, owns, m, |cfgs|);
    RunAppend(cfgs, Start(cfgs), first, second);
    var before := RunAll(cfgs, Start(cfgs), first + second);
    var node := before.nodes[m];
    AllCounted(node.signs, row.id, if row.chain == Ethereum then Some(SUCCESS) else None);
    steps := first + second + [Local(m, Submit(row, true))];
    sub := Submission(m, row, QuorumRows(node.signs, row));
    assert steps[..|first + second|] == first + second;
    NextLogs(cfgs, before, m, row, true);
  }
}
