/** The node itself: its two tables, updated in place by the passes of its three loops. A ghost
    trace lists the database operations done so far, as acts of Node, with the states they
    lead through, so that what is proved about runs holds of the tables. */
module Validator {
  import opened EthPass
  import opened Finalizing
  import opened Models
  import opened Node
  import opened NodeInvariant
  import opened Signing
  import opened TokenPairs
  import EthSlots
  import Hex
  import Messages
  import WavesList
  import WavesWalk

  class Validator {
    const cfg: Config
    var requests: Requests
    var signs: seq<Sign>
    ghost var trace: Trace

    ghost function State(): Node
      reads this
    {
      Last(trace)
    }

    /** The tables are what the acts done so far made of an empty database. */
    ghost predicate Valid()
      reads this
    {
      && IsTrace(cfg, trace)
      && State().requests == requests
      && State().signs == signs
      && State().ethCursor == Idle && State().wavesCursor == Idle
      && Keyed(requests)
    }

    lemma StateIsRun()
      requires Valid()
      ensures State() == Run(cfg, EMPTY, trace.acts)
    {
      TraceIsRun(cfg, trace, |trace.acts|);
      assert trace.acts[..|trace.acts|] == trace.acts;
    }

    constructor (cfg: Config)
      ensures Valid() && this.cfg == cfg && requests == map[] && signs == [] && trace == UNUSED
    {
      this.cfg := cfg;
      requests := map[];
      signs := [];
      trace := UNUSED;
    }

    ghost method Do(act: Act)
      requires IsTrace(cfg, trace)
      modifies this`trace
      ensures IsTrace(cfg, trace) && Longer(old(trace), trace) && trace.acts == old(trace).acts + [act]
      ensures State() == Apply(cfg, old(State()), act)
    {
      trace := Snoc(cfg, trace, act);
    }

    // ----- reading the New rows -----

    /** The rows of a query without an order come in any order. */
    method SelectPending(chain: Option<ChainType>) returns (rows: seq<Request>)
      requires Valid()
      modifies this`trace
      ensures Valid() && Extends(old(trace), trace) && State().picked >= old(State()).picked
      ensures AllPending(rows, requests, chain)
      ensures forall row <- rows :: row in State().picked
    {
      var todo := set id | id in requests && requests[id].status == NEW
                           && (chain.None? || requests[id].chain == chain.value) :: requests[id];
      ghost var all := todo;
      assert forall row <- all :: row.id in requests && row == requests[row.id] && row.id != "";
      rows := [];
      while todo != {}
        invariant DistinctIds(rows) && forall row :: row in all <==> row in rows || row in todo
        invariant forall row <- rows :: row !in todo
        decreases todo
      {
        var row :| row in todo;
        assert forall other <- rows :: other in all && other != row && other.id != row.id;
        rows := rows + [row];
        todo := todo - {row};
      }
      Do(Pick);
    }

    // ----- signRequest -----

    method SignOne(row: Request, reply: SignReply)
      requires Valid() && row in State().picked && row.id != ""
      modifies this`signs, this`trace
      ensures Valid() && Extends(old(trace), trace) && State().picked == old(State()).picked
      ensures signs == match WillSign(cfg, old(signs), row, reply) {
        case None => old(signs)
        case Some(own) => old(signs) + [own]
      }
    {
      var oracleAddress := Oracle(cfg, row.chain);
      if Held(signs, row.id, oracleAddress) || reply.view.None? {
        return;
      }
      if !Accepts(cfg.addressing, reply.view.value, row) {
        return;
      }
      var signature, pubKey;
      match row.chain {
        case Ethereum =>
          var msg := Messages.FormatEthMsg(row.id, SUCCESS);
          if msg.None? { return; }
          pubKey := cfg.ethOracle;
          signature := EthSignature(cfg, msg.value);
        case Waves =>
          var signedText := cfg.wavesSign(Messages.FormatWavesMsg(row.id, SUCCESS), reply.nonce);
          if signedText.None? { return; }
          pubKey := signedText.value.publicKey;
          signature := signedText.value.signature;
      }
      signs := signs + [Sign(row.id, oracleAddress, signature, pubKey, reply.now, SUCCESS)];
      Do(SignOwn(row, reply.view.value, reply.nonce, reply.now));
    }

    /** Every New request this node accepts and has not signed is signed, exactly once. */
    method SignRequest(replies: Request -> SignReply) returns (rows: seq<Request>)
      requires Valid()
      modifies this`signs, this`trace
      ensures Valid() && Extends(old(trace), trace)
      ensures AllPending(rows, requests, None)
      ensures signs == old(signs) + SignAll(cfg, old(signs), rows, replies)
    {
      rows := SelectPending(None);
      for k := 0 to |rows|
        invariant Valid() && Extends(old(trace), trace)
        invariant forall row <- rows :: row in State().picked
        invariant signs == old(signs) + SignAll(cfg, old(signs), rows[..k], replies)
      {
        var row := rows[k];
        SignAllStep(cfg, old(signs), rows, k, replies);
        SignOne(row, replies(row));
      }
      assert rows[..|rows|] == rows;
    }

    // ----- getSigns -----

    method PullOne(row: Request, reply: PullReply)
      requires Valid() && row in State().picked
      modifies this`signs, this`trace
      ensures Valid() && Longer(old(trace), trace) && State().picked == old(State()).picked
      ensures HonestPull(row, reply) ==> Extends(old(trace), trace)
      ensures signs == PullInto(old(signs), row, reply)
    {
      match reply {
        case Unreachable => return;
        case BadStatus => return;
        case Garbled => return;
        case Row(sign) =>
          if Held(signs, row.id, sign.validatorAddress) {
            return;
          }
          signs := signs + [sign];
          Do(Receive(row, sign));
      }
    }

    /** One peer after another for one request. */
    method PullFrom(row: Request, ips: seq<string>, replies: (Request, string) -> PullReply)
      requires Valid() && row in State().picked
      modifies this`signs, this`trace
      ensures Valid() && Longer(old(trace), trace) && State().picked == old(State()).picked
      ensures HonestPeers(replies) ==> Extends(old(trace), trace)
      ensures signs == PullFromAll(old(signs), row, ips, replies)
    {
      for k := 0 to |ips|
        invariant Valid() && Longer(old(trace), trace) && State().picked == old(State()).picked
        invariant HonestPeers(replies) ==> Extends(old(trace), trace)
        invariant signs == PullFromAll(old(signs), row, ips[..k], replies)
      {
        PullOne(row, replies(row, ips[k]));
        assert ips[..k + 1][..k] == ips[..k];
      }
      assert ips[..|ips|] == ips;
    }

    method GetSigns(ips: seq<string>, replies: (Request, string) -> PullReply) returns (rows: seq<Request>)
      requires Valid()
      modifies this`signs, this`trace
      ensures Valid() && Longer(old(trace), trace)
      ensures HonestPeers(replies) ==> Extends(old(trace), trace)
      ensures AllPending(rows, requests, None)
      ensures signs == PullAll(old(signs), rows, ips, replies)
    {
      rows := SelectPending(None);
      for k := 0 to |rows|
        invariant Valid() && Longer(old(trace), trace)
        invariant HonestPeers(replies) ==> Extends(old(trace), trace)
        invariant forall row <- rows :: row in State().picked
        invariant signs == PullAll(old(signs), rows[..k], ips, replies)
      {
        PullFrom(rows[k], ips, replies);
        assert rows[..k + 1][..k] == rows[..k];
      }
      assert rows[..|rows|] == rows;
    }

    // ----- handleGetSign -----

    /** Exactly the requests this node has cached and signed are answered, each with the row
        stored under the node's own address for the chain of the request. */
    method ServeSign(requestHash: string) returns (reply: Option<Sign>)
      requires Valid()
      ensures NamedOracles(cfg) ==>
        (reply.Some? <==>
         requestHash in requests && HasRow(signs, requestHash, Oracle(cfg, requests[requestHash].chain)))
      ensures NamedOracles(cfg) && reply.Some? ==>
        && reply.value in signs && reply.value.requestId == requestHash
        && reply.value.validatorAddress == Oracle(cfg, requests[requestHash].chain) != ""
      ensures NamedOracles(cfg) && reply.Some? && Unique(signs) ==> forall sign <- signs ::
        sign.requestId == requestHash && sign.validatorAddress == reply.value.validatorAddress ==> sign == reply.value
    {
      reply := HandleGetSign(cfg, requests, signs, requestHash);
    }

    // ----- finalizeEthRequest -----

    method SaveAsSuccess(row: Request)
      requires Valid() && row in State().picked && row.id in State().cleared
      requires row.id in requests && row == requests[row.id]
      modifies this`requests, this`trace
      ensures Valid() && Extends(old(trace), trace) && State().picked == old(State()).picked
      ensures requests == old(requests)[row.id := row.(status := SUCCESS)]
    {
      requests := requests[row.id := row.(status := SUCCESS)];
      Do(SaveSuccess(row));
    }

    ghost method RecordSeen(row: Request)
      requires Valid() && row in State().picked
      modifies this`trace
      ensures Valid() && Extends(old(trace), trace) && State().picked == old(State()).picked
      ensures row.id in State().cleared
    {
      Do(SeeSuccess(row));
    }

    ghost method RecordSubmit(row: Request, sent: bool)
      requires Valid() && row in State().picked && Quorum(cfg, signs, row)
      modifies this`trace
      ensures Valid() && Extends(old(trace), trace) && State().picked == old(State()).picked
      ensures sent ==> row.id in State().cleared
      ensures SubmitAt(cfg, signs, trace, |old(trace).acts|, row, sent)
    {
      Do(Submit(row, sent));
    }

    method FinalizeEthOne(row: Request, pubKeyOracles: seq<string>, reply: FinalReply)
      returns (result: PassResult, submission: Option<EthSubmission>)
      requires Valid() && row in State().picked && row.chain == Ethereum && |pubKeyOracles| == 5
      requires row.id in requests && row == requests[row.id]
      modifies this`requests, this`trace
      ensures Valid() && Extends(old(trace), trace) && State().picked == old(State()).picked
      ensures Step(cfg, signs, pubKeyOracles, row, reply, result, old(requests), requests, old(trace), trace)
      ensures SubmittedOnly(cfg, signs, row, reply, result, submission, EthSubmissionFor(signs, row, pubKeyOracles),
                            old(trace), trace)
    {
      result, submission := Finished, None;
      if Hex.Decode(row.id).None? {
        return;
      }
      if reply.chainStatus == Some(SUCCESS) {
        RecordSeen(row);
        SaveAsSuccess(row);
        return;
      }
      var counted := SignsFor(signs, row.id, Some(SUCCESS));
      if |counted| < cfg.bftCoefficient {
        return;
      }
      var panicked, slots := EthSlots.CollectSlots(pubKeyOracles, counted);
      if panicked {
        result := Panicked;
        return;
      }
      submission := Some(EthSubmission(row.id, slots));
      RecordSubmit(row, reply.outcome == Sent);
      ghost var submitted := trace;
      if reply.outcome == Sent {
        SaveAsSuccess(row);
        SubmitStays(cfg, signs, submitted, trace, |old(trace).acts|, row, true);
      }
    }

    /** The loop of the pass, over the rows read at its start. */
    method FinalizeEthRows(rows: seq<Request>, pubKeyOracles: seq<string>, replies: Request -> FinalReply)
      returns (result: PassResult, submissions: seq<EthSubmission>, done: nat)
      requires Valid() && |pubKeyOracles| == 5 && AllPending(rows, requests, Some(Ethereum))
      requires forall row <- rows :: row in State().picked
      modifies this`requests, this`trace
      ensures Valid() && Extends(old(trace), trace) && State().picked == old(State()).picked && done <= |rows|
      ensures var p := FinalPass(Ethereum, cfg, signs, old(requests), pubKeyOracles, replies);
        && requests == TreatAll(p, rows[..done]) && submissions == EthSent(p, rows[..done])
        && NoneStops(p, rows[..done]) && RecordedAll(p, |old(trace).acts|, trace, rows[..done])
        && (if done < |rows| then result == ResultAt(p, rows[done]) != Finished else result == Finished)
    {
      submissions := [];
      ghost var p, from := FinalPass(Ethereum, cfg, signs, requests, pubKeyOracles, replies), |trace.acts|;
      for k := 0 to |rows|
        invariant Valid() && Extends(old(trace), trace) && State().picked == old(State()).picked
        invariant requests == TreatAll(p, rows[..k]) && submissions == EthSent(p, rows[..k])
        invariant NoneStops(p, rows[..k]) && RecordedAll(p, from, trace, rows[..k])
      {
        var row, submission := rows[k], None;
        ghost var soFar := trace;
        assert row in rows;
        PendingAreStored(p, rows, |rows|);
        UntreatedYet(p, rows, k);
        result, submission := FinalizeEthOne(row, pubKeyOracles, replies(row));
        if result != Finished {
          return result, submissions, k;
        }
        submissions := Appended(submissions, submission);
        OneMore(p, rows, k);
        RecordedOneMore(p, rows, k, from, soFar, trace);
      }
      assert rows[..|rows|] == rows;
      return Finished, submissions, |rows|;
    }

    method FinalizeEthRequest(pubKeyOracles: seq<string>, replies: Request -> FinalReply)
      returns (result: PassResult, submissions: seq<EthSubmission>, rows: seq<Request>, done: nat)
      requires Valid() && |pubKeyOracles| == 5
      modifies this`requests, this`trace
      ensures Valid() && Extends(old(trace), trace)
      ensures var p := FinalPass(Ethereum, cfg, signs, old(requests), pubKeyOracles, replies);
        && Ended(p, result, rows, done, requests)
        && Lawful(p, State(), result, rows, done, requests, EthIds(submissions))
        && EthSubmitted(p, DueRows(p, rows[..done]), submissions)
        && Recorded(p, |old(trace).acts|, trace, DueRows(p, rows[..done]))
    {
      ghost var p := FinalPass(Ethereum, cfg, signs, requests, pubKeyOracles, replies);
      rows := SelectPending(Some(Ethereum));
      ghost var from := |trace.acts|;
      result, submissions, done := FinalizeEthRows(rows, pubKeyOracles, replies);
      EthPassEnds(p, State(), result, rows, done, submissions);
      RecordedAllIs(p, from, |old(trace).acts|, trace, rows[..done]);
    }

    // ----- finalizeWavesRequest -----

    method FinalizeWavesOne(row: Request, pubKeyOracles: seq<string>, reply: FinalReply)
      returns (result: PassResult, submission: Option<WavesSubmission>)
      requires Valid() && row in State().picked && row.chain == Waves
      requires row.id in requests && row == requests[row.id]
      modifies this`requests, this`trace
      ensures Valid() && Extends(old(trace), trace) && State().picked == old(State()).picked
      ensures Step(cfg, signs, pubKeyOracles, row, reply, result, old(requests), requests, old(trace), trace)
      ensures SubmittedOnly(cfg, signs, row, reply, result, submission, WavesSubmissionFor(signs, row, pubKeyOracles),
                            old(trace), trace)
    {
      result, submission := Finished, None;
      if reply.chainStatus.None? {
        result := Panicked;
        return;
      }
      if reply.chainStatus == Some(SUCCESS) {
        RecordSeen(row);
        SaveAsSuccess(row);
        return;
      }
      var counted := SignsFor(signs, row.id, None);
      if |counted| < cfg.bftCoefficient {
        return;
      }
      var sortedSigns := WavesList.SortSigns(pubKeyOracles, counted);
      submission := Some(WavesSubmission(row.id, sortedSigns));
      RecordSubmit(row, reply.outcome == Sent);
      if reply.outcome != Sent {
        result := Failed;
        return;
      }
      ghost var submitted := trace;
      SaveAsSuccess(row);
      SubmitStays(cfg, signs, submitted, trace, |old(trace).acts|, row, true);
    }

    /** The loop of the pass, over the rows read at its start. A row it gives up at has been
        submitted too. */
    method FinalizeWavesRows(rows: seq<Request>, pubKeyOracles: seq<string>, replies: Request -> FinalReply)
      returns (result: PassResult, submissions: seq<WavesSubmission>, done: nat)
      requires Valid() && AllPending(rows, requests, Some(Waves))
      requires forall row <- rows :: row in State().picked
      modifies this`requests, this`trace
      ensures Valid() && Extends(old(trace), trace) && State().picked == old(State()).picked && done <= |rows|
      ensures var p := FinalPass(Waves, cfg, signs, old(requests), pubKeyOracles, replies);
        var tried := rows[..if done < |rows| then done + 1 else done];
        && requests == TreatAll(p, rows[..done]) && submissions == WavesSent(p, tried)
        && NoneStops(p, rows[..done]) && RecordedAll(p, |old(trace).acts|, trace, tried)
        && (if done < |rows| then result == ResultAt(p, rows[done]) != Finished else result == Finished)
    {
      submissions := [];
      ghost var p, from := FinalPass(Waves, cfg, signs, requests, pubKeyOracles, replies), |trace.acts|;
      for k := 0 to |rows|
        invariant Valid() && Extends(old(trace), trace) && State().picked == old(State()).picked
        invariant requests == TreatAll(p, rows[..k]) && submissions == WavesSent(p, rows[..k])
        invariant NoneStops(p, rows[..k]) && RecordedAll(p, from, trace, rows[..k])
      {
        var row, submission := rows[k], None;
        ghost var soFar := trace;
        assert row in rows;
        PendingAreStored(p, rows, |rows|);
        UntreatedYet(p, rows, k);
        result, submission := FinalizeWavesOne(row, pubKeyOracles, replies(row));
        WavesNext(p, rows, k, from, soFar, trace, result, requests, submissions, submission);
        submissions := Appended(submissions, submission);
        if result != Finished {
          return result, submissions, k;
        }
      }
      assert rows[..|rows|] == rows;
      return Finished, submissions, |rows|;
    }

    method FinalizeWavesRequest(stateRead: bool, pubKeyOracles: seq<string>, replies: Request -> FinalReply)
      returns (result: PassResult, submissions: seq<WavesSubmission>, rows: seq<Request>, done: nat)
      requires Valid()
      modifies this`requests, this`trace
      ensures Valid() && Extends(old(trace), trace)
      ensures !stateRead ==> result == Failed && requests == old(requests) && submissions == []
      ensures stateRead ==>
        var p := FinalPass(Waves, cfg, signs, old(requests), pubKeyOracles, replies);
        && Ended(p, result, rows, done, requests)
        && Lawful(p, State(), result, rows, done, requests, WavesIds(submissions))
        && var due := DueRows(p, rows[..if done < |rows| then done + 1 else done]);
           WavesSubmitted(p, due, submissions) && Recorded(p, |old(trace).acts|, trace, due)
    {
      ghost var p := FinalPass(Waves, cfg, signs, requests, pubKeyOracles, replies);
      rows := SelectPending(Some(Waves));
      if !stateRead {
        return Failed, [], rows, 0;
      }
      ghost var from := |trace.acts|;
      result, submissions, done := FinalizeWavesRows(rows, pubKeyOracles, replies);
      ghost var tried := if done < |rows| then done + 1 else done;
      WavesPassEnds(p, State(), result, rows, done, tried, submissions);
      RecordedAllIs(p, from, |old(trace).acts|, trace, rows[..tried]);
    }

    // ----- the signer's loop -----

    method SignAndPull(signing: Request -> SignReply, ips: seq<string>, pulling: (Request, string) -> PullReply)
      requires Valid() && HonestPeers(pulling)
      modifies this`signs, this`trace
      ensures Valid() && Extends(old(trace), trace)
      ensures Collected(cfg, old(signs), signs, requests, ips, signing, pulling)
    {
      var signed := SignRequest(signing);
      var pulled := GetSigns(ips, pulling);
      SignedAndPulled(cfg, old(signs), requests, signed, pulled, ips, signing, pulling);
    }

    /** The error of a pass is printed and the next one follows; a panic ends the program. */
    method FinalizeBoth(ethAdmins: seq<string>, ethReplies: Request -> FinalReply, stateRead: bool,
                        wavesAdmins: seq<string>, wavesReplies: Request -> FinalReply)
      returns (result: PassResult)
      requires Valid() && |ethAdmins| == 5
      modifies this`requests, this`trace
      ensures Valid() && Extends(old(trace), trace)
      ensures var eth := FinalPass(Ethereum, cfg, signs, old(requests), ethAdmins, ethReplies);
        var waves := FinalPass(Waves, cfg, signs, old(requests), wavesAdmins, wavesReplies);
        && (SomeStops(eth) ==> result == Panicked)
        && (!SomeStops(eth) && !stateRead ==> result == Failed)
        && (result == Finished <==> stateRead && !SomeStops(eth) && !SomeStops(waves))
      ensures result == Finished ==> BothFinalized(cfg, signs, old(requests), requests, ethReplies, wavesReplies)
    {
      ghost var eth := FinalPass(Ethereum, cfg, signs, requests, ethAdmins, ethReplies);
      var ethSubmissions, wavesSubmissions, rows, done;
      result, ethSubmissions, rows, done := FinalizeEthRequest(ethAdmins, ethReplies);
      EthPanicsOnly(eth, result, rows, done, requests);
      if result == Panicked {
        return;
      }
      ghost var waves := FinalPass(Waves, cfg, signs, requests, wavesAdmins, wavesReplies);
      WavesUndisturbed(eth, waves.(before := old(requests)), waves);
      result, wavesSubmissions, rows, done := FinalizeWavesRequest(stateRead, wavesAdmins, wavesReplies);
      if result == Finished {
        OneAfterTheOther(eth, waves, requests);
      }
    }

    /** One turn: sign, pull, finalize on Ethereum, finalize on Waves. */
    method SignerRound(signing: Request -> SignReply, ips: seq<string>, pulling: (Request, string) -> PullReply,
                       ethAdmins: seq<string>, ethReplies: Request -> FinalReply, stateRead: bool,
                       wavesAdmins: seq<string>, wavesReplies: Request -> FinalReply)
      returns (result: PassResult)
      requires Valid() && |ethAdmins| == 5 && HonestPeers(pulling)
      modifies this`requests, this`signs, this`trace
      ensures Valid() && Extends(old(trace), trace)
      ensures NamedOracles(cfg) && NodeInv(cfg, old(State())) ==>
        NodeInv(cfg, State()) && Grows(old(State()), State())
      ensures Collected(cfg, old(signs), signs, old(requests), ips, signing, pulling)
      ensures var eth := FinalPass(Ethereum, cfg, signs, old(requests), ethAdmins, ethReplies);
        var waves := FinalPass(Waves, cfg, signs, old(requests), wavesAdmins, wavesReplies);
        && (SomeStops(eth) ==> result == Panicked)
        && (!SomeStops(eth) && !stateRead ==> result == Failed)
        && (result == Finished <==> stateRead && !SomeStops(eth) && !SomeStops(waves))
      ensures result == Finished ==> BothFinalized(cfg, signs, old(requests), requests, ethReplies, wavesReplies)
    {
      SignAndPull(signing, ips, pulling);
      result := FinalizeBoth(ethAdmins, ethReplies, stateRead, wavesAdmins, wavesReplies);
      StretchKeeps(cfg, old(trace), trace);
    }

    // ----- handleEthLogs -----

    method CacheEth(hash: seq<Byte>, rq: EthRequest, height: int)
      requires Valid() && |hash| == 32 && rq.height >= 0
      requires rq.height + cfg.ethDepth <= height <= rq.height + cfg.rqTimeout
      modifies this`requests, this`trace
      ensures Valid() && Extends(old(trace), trace)
      ensures var id := Hex.Encode(hash);
        && id in requests && requests == old(requests)[id := requests[id]]
        && if id in old(requests) then requests[id] == old(requests)[id].(status := rq.status)
           else ShowsEth(requests[id], hash, rq)
      ensures requests == Upsert(old(requests), EthRow(hash, rq))
    {
      var id := Hex.Encode(hash);
      Do(EthLook(hash, rq, height));
      if id in requests {
        if requests[id].status != rq.status {
          requests := requests[id := requests[id].(status := rq.status)];
        }
      } else {
        requests := requests[id := EthRow(hash, rq)];
      }
      Do(EthWrite);
    }

    /** The update at the end of both cachers' passes. */
    method RejectOld(chain: ChainType, height: int)
      requires Valid()
      modifies this`requests, this`trace
      ensures Valid() && Extends(old(trace), trace) && requests == Sweep(old(requests), height, cfg.rqTimeout)
    {
      requests := Sweep(requests, height, cfg.rqTimeout);
      Do(OwnSweep(chain, height));
    }

    /** The loop of the pass. */
    method CacheLogs(height: int, logs: seq<EthLog>) returns (failed: bool)
      requires Valid() && WellTyped(logs)
      modifies this`requests, this`trace
      ensures Valid() && Extends(old(trace), trace) && failed == Fails(cfg, height, logs)
      ensures requests == UpsertAll(old(requests), Rows(cfg, height, logs[..StopAt(cfg, height, logs)]))
    {
      var k := 0;
      while k < |logs|
        invariant Valid() && Extends(old(trace), trace)
        invariant 0 <= k <= StopAt(cfg, height, logs)
        invariant requests == UpsertAll(old(requests), Rows(cfg, height, logs[..k]))
      {
        var log := logs[k];
        StopsHere(cfg, height, logs, k);
        if log.reply.None? {
          return true;
        }
        var rq := log.reply.value;
        OneLogMore(cfg, height, logs, k, old(requests));
        if Unconfirmed(rq.height, height, cfg.ethDepth) {
          k := k + 1;
          continue;
        }
        if Expired(rq.height, height, cfg.rqTimeout) {
          break;
        }
        CacheEth(log.hash, rq, height);
        k := k + 1;
      }
      return false;
    }

    method HandleEthLogs(height: Option<int>, logs: Option<seq<EthLog>>) returns (result: PassResult)
      requires Valid() && (logs.Some? ==> WellTyped(logs.value))
      modifies this`requests, this`trace
      ensures Valid() && Extends(old(trace), trace)
      ensures height.None? || logs.None? ==> result == Failed && requests == old(requests)
      ensures height.Some? && logs.Some? ==>
        && requests == Pass(cfg, height.value, logs.value, old(requests))
        && result == if Aborted(cfg, height.value, logs.value) then Failed else Finished
    {
      if height.None? || logs.None? {
        return Failed;
      }
      CountedIff(cfg, height.value, logs.value);
      var failed := CacheLogs(height.value, logs.value);
      if failed {
        return Failed;
      }
      RejectOld(Ethereum, height.value);
      return Finished;
    }

    // ----- handleWavesState -----

    method CacheWaves(id: string, item: WavesItem, height: int)
      requires Valid() && id != "" && !Hex.IsEthId(id) && item.height >= 0
      requires item.height + cfg.wavesDepth <= height <= item.height + cfg.rqTimeout
      modifies this`requests, this`trace
      ensures Valid() && Extends(old(trace), trace)
      ensures id in requests && requests == old(requests)[id := requests[id]]
      ensures if id in old(requests) then requests[id] == old(requests)[id].(status := item.status)
              else ShowsWaves(requests[id], id, item)
      ensures requests == Upsert(old(requests), WavesRow(id, item))
    {
      Do(WavesLook(id, item, height));
      if id in requests {
        if requests[id].status != item.status {
          requests := requests[id := requests[id].(status := item.status)];
        }
      } else {
        requests := requests[id := WavesRow(id, item)];
      }
      Do(WavesWrite);
    }

    /** The loop of the pass. It may turn in place for ever, so only its first `fuel`
        iterations are run. */
    method WalkOrders(items: WavesWalk.Items, newest: string, height: int, fuel: nat) returns (result: PassResult)
      requires Valid() && forall id <- items :: id != "" && !Hex.IsEthId(id) && items[id].height >= 0
      modifies this`requests, this`trace
      ensures Valid() && Extends(old(trace), trace)
      ensures match WavesWalk.Iterate(cfg, height, items, WavesWalk.At(newest, old(requests)), fuel) {
        case At(_, table) => result == Running && requests == table
        case Broke(table) => result == Finished && requests == table
        case Panicked(table) => result == Panicked && requests == table
      }
    {
      var orderId, n := newest, 0;
      ghost var start := WavesWalk.At(newest, requests);
      while n < fuel
        invariant Valid() && Extends(old(trace), trace) && 0 <= n <= fuel
        invariant WavesWalk.Iterate(cfg, height, items, start, n) == WavesWalk.At(orderId, requests)
      {
        WavesWalk.IterateSplit(cfg, height, items, start, n, 1);
        WavesWalk.IterateSplit(cfg, height, items, start, n + 1, fuel - n - 1);
        ghost var next := WavesWalk.Iterate(cfg, height, items, start, n + 1);
        n := n + 1;
        if orderId !in items {
          WavesWalk.FixedForever(cfg, height, items, next, fuel - n);
          return Panicked;
        }
        var item := items[orderId];
        if Unconfirmed(item.height, height, cfg.wavesDepth) {
          continue;
        }
        if Expired(item.height, height, cfg.rqTimeout) {
          WavesWalk.FixedForever(cfg, height, items, next, fuel - n);
          return Finished;
        }
        var cached := orderId in requests;
        CacheWaves(orderId, item, height);
        if cached {
          continue;
        }
        orderId := item.prev;
      }
      return Running;
    }

    method HandleWavesState(state: Option<(WavesWalk.Items, string)>, height: Option<int>, fuel: nat)
      returns (result: PassResult)
      requires Valid()
      requires state.Some? ==>
        forall id <- state.value.0 :: id != "" && !Hex.IsEthId(id) && state.value.0[id].height >= 0
      modifies this`requests, this`trace
      ensures Valid() && Extends(old(trace), trace)
      ensures state.None? || height.None? ==> result == Failed && requests == old(requests)
      ensures state.Some? && height.Some? ==>
        var (items, newest), h := state.value, height.value;
        var end := WavesWalk.Iterate(cfg, h, items, WavesWalk.At(newest, old(requests)), fuel);
        && (result == Finished <==> WavesWalk.ClearWithin(cfg, h, items, old(requests), newest, fuel))
        && (result == Finished || result == Panicked || result == Running)
        && (result == Panicked <==> end.Panicked?)
        && requests == if result == Finished then Sweep(end.requests, h, cfg.rqTimeout) else end.requests
    {
      if state.None? || height.None? {
        return Failed;
      }
      var items, newest := state.value.0, state.value.1;
      WavesWalk.EndsWithinIff(cfg, height.value, items, requests, newest, fuel);
      result := WalkOrders(items, newest, height.value, fuel);
      if result == Finished {
        RejectOld(Waves, height.value);
      }
    }
  }

  /** Every stretch of a node's life keeps the node invariant. */
  lemma StretchKeeps(cfg: Config, before: Trace, after: Trace)
    requires IsTrace(cfg, before) && IsTrace(cfg, after) && Extends(before, after)
    ensures NamedOracles(cfg) && NodeInv(cfg, Last(before)) ==>
      NodeInv(cfg, Last(after)) && Grows(Last(before), Last(after))
  {
    if NamedOracles(cfg) && NodeInv(cfg, Last(before)) {
      ExtendsKeeps(cfg, before, after);
    }
  }

  lemma StopsHere(cfg: Config, height: int, logs: seq<EthLog>, k: nat)
    requires k < |logs| && k <= StopAt(cfg, height, logs)
    ensures StopAt(cfg, height, logs) == k <==> Stops(cfg, height, logs[k])
  {
  }
}
