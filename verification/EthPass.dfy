/** What one pass of the Ethereum cacher does to the request table (cacher/eth.go:77-126). */
module EthPass {
  import opened Models
  import opened Node
  import Hex

  /** A NewRequest log and the answer to the call that reads the request; None: it failed. */
  datatype EthLog = EthLog(hash: seq<Byte>, reply: Option<EthRequest>)

  predicate WellTyped(logs: seq<EthLog>) {
    forall i :: 0 <= i < |logs| ==>
      |logs[i].hash| == 32 && (logs[i].reply.Some? ==> logs[i].reply.value.height >= 0)
  }

  /** Rows are stored under their own id, which is never empty. */
  ghost predicate Keyed(requests: Requests) {
    forall id <- requests :: requests[id].id == id && id != ""
  }

  /** The loop body once a log has passed the two height tests. */
  function Upsert(requests: Requests, row: Request): Requests {
    if row.id in requests then requests[row.id := requests[row.id].(status := row.status)]
    else requests[row.id := row]
  }

  function UpsertAll(requests: Requests, rows: seq<Request>): Requests {
    if rows == [] then requests
    else Upsert(UpsertAll(requests, rows[..|rows| - 1]), rows[|rows| - 1])
  }

  predicate IsConfirmed(cfg: Config, height: int, log: EthLog) {
    log.reply.Some? && !Unconfirmed(log.reply.value.height, height, cfg.ethDepth)
  }

  /** The loop ends at a failed call, and at the first confirmed log that has expired. */
  predicate Stops(cfg: Config, height: int, log: EthLog) {
    log.reply.None? || (IsConfirmed(cfg, height, log) && Expired(log.reply.value.height, height, cfg.rqTimeout))
  }

  function StopAt(cfg: Config, height: int, logs: seq<EthLog>): (k: nat)
    ensures k <= |logs|
    ensures k < |logs| ==> Stops(cfg, height, logs[k])
    ensures forall i :: 0 <= i < k ==> !Stops(cfg, height, logs[i])
  {
    if logs == [] || Stops(cfg, height, logs[0]) then 0 else 1 + StopAt(cfg, height, logs[1..])
  }

  /** The rows of the confirmed logs; unconfirmed ones are skipped. */
  function Rows(cfg: Config, height: int, logs: seq<EthLog>): seq<Request> {
    if logs == [] then []
    else
      var init, log := Rows(cfg, height, logs[..|logs| - 1]), logs[|logs| - 1];
      if IsConfirmed(cfg, height, log) then init + [EthRow(log.hash, log.reply.value)] else init
  }

  /** One log further. */
  lemma OneLogMore(cfg: Config, height: int, logs: seq<EthLog>, k: nat, requests: Requests)
    requires k < |logs|
    ensures var now := UpsertAll(requests, Rows(cfg, height, logs[..k]));
      UpsertAll(requests, Rows(cfg, height, logs[..k + 1])) ==
      if IsConfirmed(cfg, height, logs[k]) then Upsert(now, EthRow(logs[k].hash, logs[k].reply.value)) else now
  {
    assert logs[..k + 1][..k] == logs[..k];
    var rows := Rows(cfg, height, logs[..k]);
    if IsConfirmed(cfg, height, logs[k]) {
      var row := EthRow(logs[k].hash, logs[k].reply.value);
      assert (rows + [row])[..|rows|] == rows;
    }
  }

  predicate Fails(cfg: Config, height: int, logs: seq<EthLog>) {
    var k := StopAt(cfg, height, logs);
    k < |logs| && logs[k].reply.None?
  }

  /** A failed call skips the sweep. */
  function Pass(cfg: Config, height: int, logs: seq<EthLog>, requests: Requests): Requests {
    var cached := UpsertAll(requests, Rows(cfg, height, logs[..StopAt(cfg, height, logs)]));
    if Fails(cfg, height, logs) then cached else Sweep(cached, height, cfg.rqTimeout)
  }

  // ----- the pass, log by log -----

  /** One snapshot answers the same for the same hash. */
  ghost predicate OneSnapshot(logs: seq<EthLog>) {
    forall i, j :: 0 <= i < |logs| && 0 <= j < |logs| && logs[i].hash == logs[j].hash ==> logs[i].reply == logs[j].reply
  }

  /** The call failed, or the log is deep enough and past the timeout. */
  ghost predicate Breaks(cfg: Config, height: int, log: EthLog) {
    log.reply.None? ||
    (log.reply.value.height + cfg.ethDepth <= height && log.reply.value.height + cfg.rqTimeout < height)
  }

  /** Log i is deep enough, and the loop gets to it. */
  ghost predicate Counted(cfg: Config, height: int, logs: seq<EthLog>, i: nat) {
    && i < |logs| && (forall j :: 0 <= j <= i ==> !Breaks(cfg, height, logs[j]))
    && logs[i].reply.value.height + cfg.ethDepth <= height
  }

  /** The first log that ends the loop is one whose call failed. */
  ghost predicate Aborted(cfg: Config, height: int, logs: seq<EthLog>) {
    exists k :: 0 <= k < |logs| && logs[k].reply.None? && forall j :: 0 <= j < k ==> !Breaks(cfg, height, logs[j])
  }

  lemma BreaksIff(cfg: Config, height: int, log: EthLog)
    ensures Stops(cfg, height, log) <==> Breaks(cfg, height, log)
    ensures IsConfirmed(cfg, height, log) <==>
      log.reply.Some? && log.reply.value.height + cfg.ethDepth <= height
  {
  }

  lemma CountedIff(cfg: Config, height: int, logs: seq<EthLog>)
    ensures forall i: nat :: Counted(cfg, height, logs, i) <==>
      i < StopAt(cfg, height, logs) && IsConfirmed(cfg, height, logs[i])
    ensures Aborted(cfg, height, logs) <==> Fails(cfg, height, logs)
  {
    var k := StopAt(cfg, height, logs);
    forall i | 0 <= i < |logs| ensures Stops(cfg, height, logs[i]) <==> Breaks(cfg, height, logs[i]) {
      BreaksIff(cfg, height, logs[i]);
    }
    if k < |logs| && logs[k].reply.None? {
      assert forall j :: 0 <= j < k ==> !Breaks(cfg, height, logs[j]);
    }
  }

  ghost predicate Agree(rows: seq<Request>) {
    forall i, j :: 0 <= i < |rows| && 0 <= j < |rows| && rows[i].id == rows[j].id ==> rows[i] == rows[j]
  }

  ghost predicate Mentions(rows: seq<Request>, id: string) {
    exists row :: row in rows && row.id == id
  }

  /** Order does not matter: a cached row takes the chain's status, a missing one is added,
      the rest stays. */
  lemma {:induction false} UpsertAllAt(requests: Requests, rows: seq<Request>, id: string)
    requires Agree(rows)
    ensures var after := UpsertAll(requests, rows);
      && (id in after <==> id in requests || Mentions(rows, id))
      && (id in requests && !Mentions(rows, id) ==> after[id] == requests[id])
      && forall row <- rows :: row.id == id ==>
           after[id] == if id in requests then requests[id].(status := row.status) else row
  {
    if rows != [] {
      var init, last := rows[..|rows| - 1], rows[|rows| - 1];
      assert rows == init + [last];
      UpsertAllAt(requests, init, id);
      assert last in rows;
      if Mentions(init, id) {
        assert Mentions(rows, id);
        var row :| row in init && row.id == id;
      }
    }
  }

  ghost predicate Logged(cfg: Config, height: int, logs: seq<EthLog>, row: Request) {
    exists i :: 0 <= i < |logs| && IsConfirmed(cfg, height, logs[i])
                && row == EthRow(logs[i].hash, logs[i].reply.value)
  }

  lemma {:induction false} RowsAgree(cfg: Config, height: int, logs: seq<EthLog>)
    requires OneSnapshot(logs) && WellTyped(logs)
    ensures Agree(Rows(cfg, height, logs))
    ensures forall row <- Rows(cfg, height, logs) :: Logged(cfg, height, logs, row)
  {
    if logs != [] {
      var init, log := logs[..|logs| - 1], logs[|logs| - 1];
      RowsAgree(cfg, height, init);
      var rows := Rows(cfg, height, init);
      forall row <- rows ensures IsConfirmed(cfg, height, log) && row.id == Hex.Encode(log.hash) ==>
        row == EthRow(log.hash, log.reply.value)
      {
        var i :| 0 <= i < |init| && IsConfirmed(cfg, height, init[i])
                 && row == EthRow(init[i].hash, init[i].reply.value);
        assert init[i] == logs[i];
        Hex.DecodeEncode(logs[i].hash);
        Hex.DecodeEncode(log.hash);
      }
    }
  }

  lemma {:induction false} RowsHaveAll(cfg: Config, height: int, logs: seq<EthLog>, i: nat)
    requires i < |logs| && IsConfirmed(cfg, height, logs[i])
    ensures EthRow(logs[i].hash, logs[i].reply.value) in Rows(cfg, height, logs)
  {
    if i < |logs| - 1 {
      RowsHaveAll(cfg, height, logs[..|logs| - 1], i);
    }
  }

  /** The end of the pass: unless it was aborted, an Ethereum row at or past the timeout is
      rejected. */
  ghost predicate LeftAs(cfg: Config, height: int, aborted: bool, cached: Request, after: Request) {
    after == if !aborted && cached.chain == Ethereum && cached.createdAt + cfg.rqTimeout <= height
             then cached.(status := REJECTED) else cached
  }

  lemma PassSweeps(cfg: Config, height: int, logs: seq<EthLog>, requests: Requests, id: string)
    ensures var cached := UpsertAll(requests, Rows(cfg, height, logs[..StopAt(cfg, height, logs)]));
      var after := Pass(cfg, height, logs, requests);
      && (id in after <==> id in cached)
      && (id in after ==> LeftAs(cfg, height, Aborted(cfg, height, logs), cached[id], after[id]))
  {
    CountedIff(cfg, height, logs);
  }

  /** What a pass makes of a log it counts: a row already cached takes the chain's status and
      nothing else, a missing one is added and shows the request. */
  lemma PassAt(cfg: Config, height: int, logs: seq<EthLog>, requests: Requests, i: nat)
    requires OneSnapshot(logs) && WellTyped(logs) && Counted(cfg, height, logs, i)
    ensures var (id, rq), after := (Hex.Encode(logs[i].hash), logs[i].reply.value), Pass(cfg, height, logs, requests);
      var aborted := Aborted(cfg, height, logs);
      && id in after
      && if id in requests then LeftAs(cfg, height, aborted, requests[id].(status := rq.status), after[id])
         else LeftAs(cfg, height, aborted, after[id].(status := rq.status), after[id])
              && ShowsEth(after[id].(status := rq.status), logs[i].hash, rq)
  {
    CountedIff(cfg, height, logs);
    var seen := logs[..StopAt(cfg, height, logs)];
    var rows, row := Rows(cfg, height, seen), EthRow(logs[i].hash, logs[i].reply.value);
    RowsAgree(cfg, height, seen);
    assert seen[i] == logs[i];
    RowsHaveAll(cfg, height, seen, i);
    UpsertAllAt(requests, rows, row.id);
    assert Mentions(rows, row.id);
    PassSweeps(cfg, height, logs, requests, row.id);
  }

  /** And of everything else. */
  lemma PassElsewhere(cfg: Config, height: int, logs: seq<EthLog>, requests: Requests, id: string)
    requires OneSnapshot(logs) && WellTyped(logs)
    requires forall i: nat :: Counted(cfg, height, logs, i) ==> Hex.Encode(logs[i].hash) != id
    ensures var after := Pass(cfg, height, logs, requests);
      && (id in after <==> id in requests)
      && (id in requests ==> LeftAs(cfg, height, Aborted(cfg, height, logs), requests[id], after[id]))
  {
    CountedIff(cfg, height, logs);
    var seen := logs[..StopAt(cfg, height, logs)];
    var rows := Rows(cfg, height, seen);
    RowsAgree(cfg, height, seen);
    UpsertAllAt(requests, rows, id);
    forall row <- rows ensures row.id != id {
      var i :| 0 <= i < |seen| && IsConfirmed(cfg, height, seen[i]) && row == EthRow(seen[i].hash, seen[i].reply.value);
      assert seen[i] == logs[i] && Counted(cfg, height, logs, i);
    }
    PassSweeps(cfg, height, logs, requests, id);
  }

  /** A second pass over the same snapshot changes nothing, although it first undoes the
      rejection of a row standing exactly at the timeout and then rejects it again. */
  lemma PassTwice(cfg: Config, height: int, logs: seq<EthLog>, requests: Requests)
    requires OneSnapshot(logs) && WellTyped(logs)
    ensures var once := Pass(cfg, height, logs, requests);
      Pass(cfg, height, logs, once) == once
  {
    var once := Pass(cfg, height, logs, requests);
    var twice := Pass(cfg, height, logs, once);
    forall id
      ensures id in twice <==> id in once
      ensures id in once ==> twice[id] == once[id]
    {
      if i: nat :| Counted(cfg, height, logs, i) && Hex.Encode(logs[i].hash) == id {
        PassAt(cfg, height, logs, requests, i);
        PassAt(cfg, height, logs, once, i);
      } else {
        PassElsewhere(cfg, height, logs, requests, id);
        PassElsewhere(cfg, height, logs, once, id);
      }
    }
  }
}
