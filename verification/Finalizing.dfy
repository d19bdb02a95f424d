/** What the two finalizing passes make of the request table, what they submit, and where
    they stop (signer/eth.go:29-100, signer/waves.go:17-101). */
module Finalizing {
  import opened EthPass
  import opened Models
  import opened Node
  import opened NodeInvariant
  import opened Signing
  import EthSlots
  import Hex
  import WavesList

  /** The status the chain reports, if the call succeeds or the state has such an entry, and
      what becomes of a submission. */
  datatype FinalReply = FinalReply(chainStatus: Option<Status>, outcome: Outcome)

  datatype Outcome = NotSent | NotConfirmed | Sent

  datatype EthSubmission = EthSubmission(id: string, slots: seq<EthSlots.Slot>)

  datatype WavesSubmission = WavesSubmission(id: string, sortedSigns: string)

  datatype PassResult = Finished | Failed | Running | Panicked

  // ----- one row -----

  predicate Pending(row: Request, chain: ChainType) {
    row.status == NEW && row.chain == chain
  }

  predicate Quorum(cfg: Config, signs: seq<Sign>, row: Request) {
    |QuorumRows(signs, row)| >= cfg.bftCoefficient
  }

  /** An Ethereum row is skipped when its id does not decode; at a Waves row without a status
      entry the program panics. */
  predicate Readable(row: Request, reply: FinalReply) {
    match row.chain
    case Ethereum => Hex.Decode(row.id).Some?
    case Waves => reply.chainStatus.Some?
  }

  /** A finalizer saves Success when the chain reports it, or after its own submission. */
  predicate Promoted(cfg: Config, signs: seq<Sign>, row: Request, reply: FinalReply) {
    && Readable(row, reply)
    && (reply.chainStatus == Some(SUCCESS) || (Quorum(cfg, signs, row) && reply.outcome == Sent))
  }

  /** The table after one row: saved as Success if it is promoted. */
  function Treated(cfg: Config, signs: seq<Sign>, now: Requests, row: Request, reply: FinalReply): Requests {
    if Promoted(cfg, signs, row, reply) then now[row.id := row.(status := SUCCESS)] else now
  }

  /** A finalizer submits when the chain does not report Success yet and the quorum is there. */
  predicate Due(cfg: Config, signs: seq<Sign>, row: Request, reply: FinalReply) {
    Readable(row, reply) && reply.chainStatus != Some(SUCCESS) && Quorum(cfg, signs, row)
  }

  /** The Ethereum pass panics at a row that is due while an admin's counted signature is
      short. */
  ghost predicate PanicsAt(cfg: Config, signs: seq<Sign>, admins: seq<string>, row: Request, reply: FinalReply) {
    Due(cfg, signs, row, reply) && EthSlots.SomeShort(QuorumRows(signs, row), admins)
  }

  /** The Waves pass gives up at a row that is due but whose submission is not confirmed. */
  predicate GivesUpAt(cfg: Config, signs: seq<Sign>, row: Request, reply: FinalReply) {
    Due(cfg, signs, row, reply) && reply.outcome != Sent
  }

  /** Finished: the pass goes on with the next row. */
  ghost function RowResult(cfg: Config, signs: seq<Sign>, admins: seq<string>, row: Request,
                           reply: FinalReply): PassResult {
    match row.chain
    case Ethereum => if PanicsAt(cfg, signs, admins, row, reply) then Panicked else Finished
    case Waves =>
      if !Readable(row, reply) then Panicked
      else if GivesUpAt(cfg, signs, row, reply) then Failed
      else Finished
  }

  ghost function EthSubmissionFor(signs: seq<Sign>, row: Request, admins: seq<string>): EthSubmission {
    EthSubmission(row.id, EthSlots.Slots(QuorumRows(signs, row), admins))
  }

  function WavesSubmissionFor(signs: seq<Sign>, row: Request, admins: seq<string>): WavesSubmission {
    WavesSubmission(row.id, WavesList.Joined(WavesList.Fields(SignsFor(signs, row.id, None), admins)))
  }

  /** Act k is a submission of this row, with this signature table, that passed the quorum
      test. */
  ghost predicate SubmitAt(cfg: Config, signs: seq<Sign>, trace: Trace, k: nat, row: Request, sent: bool) {
    && k < |trace.acts| && k < |trace.states|
    && trace.acts[k] == Submit(row, sent)
    && trace.states[k].signs == signs && CanSubmit(cfg, trace.states[k], row)
  }

  lemma SubmitStays(cfg: Config, signs: seq<Sign>, trace: Trace, longer: Trace, k: nat, row: Request, sent: bool)
    requires SubmitAt(cfg, signs, trace, k, row, sent) && Longer(trace, longer)
    ensures SubmitAt(cfg, signs, longer, k, row, sent)
  {
  }

  /** A row has been treated. It is promoted exactly when it should be, unless the program
      panics at it, and then nothing is done. */
  ghost predicate Step(cfg: Config, signs: seq<Sign>, admins: seq<string>, row: Request, reply: FinalReply,
                       result: PassResult, before: Requests, after: Requests, trace: Trace, longer: Trace) {
    && result == RowResult(cfg, signs, admins, row, reply)
    && after == (if result == Panicked then before else Treated(cfg, signs, before, row, reply))
    && (result == Panicked ==> longer == trace)
  }

  /** It is submitted, with this payload, exactly when it is due and the program does not
      panic at it; a Submit act that passed the quorum test stands in the trace. */
  ghost predicate SubmittedOnly<T>(cfg: Config, signs: seq<Sign>, row: Request, reply: FinalReply, result: PassResult,
                                   submission: Option<T>, payload: T, trace: Trace, longer: Trace) {
    && submission == (if result != Panicked && Due(cfg, signs, row, reply) then Some(payload) else None)
    && (submission.Some? ==> SubmitAt(cfg, signs, longer, |trace.acts|, row, reply.outcome == Sent))
  }

  // ----- a whole pass -----

  /** What a pass starts from, and what it is answered. */
  datatype FinalPass = FinalPass(chain: ChainType, cfg: Config, signs: seq<Sign>, before: Requests,
                                 admins: seq<string>, replies: Request -> FinalReply)

  ghost predicate PromotedIn(p: FinalPass, row: Request) {
    Promoted(p.cfg, p.signs, row, p.replies(row))
  }

  ghost predicate DueIn(p: FinalPass, row: Request) {
    Due(p.cfg, p.signs, row, p.replies(row))
  }

  ghost predicate SentIn(p: FinalPass, row: Request) {
    p.replies(row).outcome == Sent
  }

  ghost function ResultAt(p: FinalPass, row: Request): PassResult {
    RowResult(p.cfg, p.signs, p.admins, row, p.replies(row))
  }

  /** The row at which a pass breaks off. */
  ghost predicate StopsAt(p: FinalPass, row: Request) {
    ResultAt(p, row) != Finished
  }

  ghost predicate SomeStops(p: FinalPass) {
    exists id :: id in p.before && Pending(p.before[id], p.chain) && StopsAt(p, p.before[id])
  }

  /** The whole table after a pass that went through all rows of its chain. */
  ghost predicate Finalized(p: FinalPass, after: Requests) {
    && after.Keys == p.before.Keys
    && forall id <- p.before ::
         after[id] == if Pending(p.before[id], p.chain) && PromotedIn(p, p.before[id])
                      then p.before[id].(status := SUCCESS) else p.before[id]
  }

  /** The table after these rows have been treated and no others. */
  ghost predicate FinalizedUpTo(p: FinalPass, done: seq<Request>, after: Requests) {
    && after.Keys == p.before.Keys
    && forall id <- p.before ::
         after[id] == if p.before[id] in done && PromotedIn(p, p.before[id])
                      then p.before[id].(status := SUCCESS) else p.before[id]
  }

  /** The rows a pass submits, in the order it reads them. */
  ghost function DueRows(p: FinalPass, rows: seq<Request>): seq<Request> {
    if rows == [] then []
    else
      var init, last := DueRows(p, rows[..|rows| - 1]), rows[|rows| - 1];
      if DueIn(p, last) then init + [last] else init
  }

  ghost predicate SubmittedSince(p: FinalPass, from: nat, trace: Trace, row: Request) {
    exists k: nat :: from <= k && SubmitAt(p.cfg, p.signs, trace, k, row, SentIn(p, row))
  }

  /** Each of these rows was submitted by an act done since act `from`. */
  ghost predicate Recorded(p: FinalPass, from: nat, trace: Trace, due: seq<Request>) {
    forall row <- due :: SubmittedSince(p, from, trace, row)
  }

  ghost predicate EthSubmitted(p: FinalPass, due: seq<Request>, submissions: seq<EthSubmission>) {
    && |submissions| == |due|
    && forall i :: 0 <= i < |due| ==> submissions[i] == EthSubmissionFor(p.signs, due[i], p.admins)
  }

  ghost predicate WavesSubmitted(p: FinalPass, due: seq<Request>, submissions: seq<WavesSubmission>) {
    && |submissions| == |due|
    && forall i :: 0 <= i < |due| ==> submissions[i] == WavesSubmissionFor(p.signs, due[i], p.admins)
  }

  /** How a pass ends. It goes through the pending rows of its chain in some order and breaks
      off at the first row it stops at, if and only if there is one; its result is what
      happened there. The rows before that are promoted exactly when they should be; that row
      and the ones after it are left alone. */
  ghost predicate Ended(p: FinalPass, result: PassResult, rows: seq<Request>, done: nat, after: Requests) {
    && AllPending(rows, p.before, Some(p.chain)) && done <= |rows|
    && (forall i :: 0 <= i < done ==> !StopsAt(p, rows[i]))
    && (result != Finished <==> SomeStops(p))
    && (if done < |rows| then result == ResultAt(p, rows[done]) != Finished else result == Finished)
    && FinalizedUpTo(p, rows[..done], after)
    && (result == Finished ==> Finalized(p, after))
  }

  // ----- a pass row by row -----

  function TreatAll(p: FinalPass, rows: seq<Request>): Requests {
    if rows == [] then p.before
    else
      var now, last := TreatAll(p, rows[..|rows| - 1]), rows[|rows| - 1];
      Treated(p.cfg, p.signs, now, last, p.replies(last))
  }

  ghost function EthSent(p: FinalPass, rows: seq<Request>): seq<EthSubmission> {
    if rows == [] then []
    else
      var init, last := EthSent(p, rows[..|rows| - 1]), rows[|rows| - 1];
      if DueIn(p, last) then init + [EthSubmissionFor(p.signs, last, p.admins)] else init
  }

  ghost function WavesSent(p: FinalPass, rows: seq<Request>): seq<WavesSubmission> {
    if rows == [] then []
    else
      var init, last := WavesSent(p, rows[..|rows| - 1]), rows[|rows| - 1];
      if DueIn(p, last) then init + [WavesSubmissionFor(p.signs, last, p.admins)] else init
  }

  ghost predicate NoneStops(p: FinalPass, rows: seq<Request>) {
    rows == [] || (NoneStops(p, rows[..|rows| - 1]) && !StopsAt(p, rows[|rows| - 1]))
  }

  ghost predicate RecordedAll(p: FinalPass, from: nat, trace: Trace, rows: seq<Request>)
    decreases |rows|
  {
    rows == [] || (RecordedAll(p, from, trace, rows[..|rows| - 1])
                   && (DueIn(p, rows[|rows| - 1]) ==> SubmittedSince(p, from, trace, rows[|rows| - 1])))
  }

  function Appended<T>(submissions: seq<T>, submission: Option<T>): seq<T> {
    if submission.Some? then submissions + [submission.value] else submissions
  }

  ghost predicate StoredAt(p: FinalPass, rows: seq<Request>, k: nat) {
    k < |rows| && rows[k].id in p.before && p.before[rows[k].id] == rows[k]
  }

  lemma TreatedOneMore(p: FinalPass, done: seq<Request>, now: Requests, row: Request)
    requires Keyed(p.before) && FinalizedUpTo(p, done, now) && row.id in p.before && p.before[row.id] == row
    ensures FinalizedUpTo(p, done + [row], Treated(p.cfg, p.signs, now, row, p.replies(row)))
  {
  }

  lemma {:induction false} TreatAllIs(p: FinalPass, rows: seq<Request>)
    requires Keyed(p.before) && forall i :: 0 <= i < |rows| ==> StoredAt(p, rows, i)
    ensures FinalizedUpTo(p, rows, TreatAll(p, rows))
  {
    if rows != [] {
      var k := |rows| - 1;
      assert forall i :: 0 <= i < k ==> StoredAt(p, rows, i) ==> StoredAt(p, rows[..k], i);
      TreatAllIs(p, rows[..k]);
      assert StoredAt(p, rows, k) && rows == rows[..k] + [rows[k]];
      TreatedOneMore(p, rows[..k], TreatAll(p, rows[..k]), rows[k]);
    }
  }

  /** Row k is stored as it was read while the rows before it were treated. */
  lemma UntreatedYet(p: FinalPass, rows: seq<Request>, k: nat)
    requires Keyed(p.before) && DistinctIds(rows) && k < |rows| && forall i :: 0 <= i <= k ==> StoredAt(p, rows, i)
    ensures var now := TreatAll(p, rows[..k]); rows[k].id in now && now[rows[k].id] == rows[k]
  {
    assert forall i :: 0 <= i < k ==> StoredAt(p, rows, i) ==> StoredAt(p, rows[..k], i);
    TreatAllIs(p, rows[..k]);
    assert StoredAt(p, rows, k) && rows[k] !in rows[..k];
  }

  lemma {:induction false} RecordedLonger(p: FinalPass, from: nat, trace: Trace, longer: Trace, rows: seq<Request>)
    requires RecordedAll(p, from, trace, rows) && Longer(trace, longer)
    ensures RecordedAll(p, from, longer, rows)
    decreases |rows|
  {
    if rows != [] {
      var last := rows[|rows| - 1];
      RecordedLonger(p, from, trace, longer, rows[..|rows| - 1]);
      if DueIn(p, last) {
        var k: nat :| from <= k && SubmitAt(p.cfg, p.signs, trace, k, last, SentIn(p, last));
        SubmitStays(p.cfg, p.signs, trace, longer, k, last, SentIn(p, last));
      }
    }
  }

  lemma RecordedOneMore(p: FinalPass, rows: seq<Request>, k: nat, from: nat, trace: Trace, longer: Trace)
    requires k < |rows| && RecordedAll(p, from, trace, rows[..k]) && from <= |trace.acts| && Longer(trace, longer)
    requires DueIn(p, rows[k]) ==>
      SubmitAt(p.cfg, p.signs, longer, |trace.acts|, rows[k], SentIn(p, rows[k]))
    ensures RecordedAll(p, from, longer, rows[..k + 1])
  {
    assert rows[..k + 1][..k] == rows[..k];
    RecordedLonger(p, from, trace, longer, rows[..k]);
  }

  /** One row further. */
  lemma OneMore(p: FinalPass, rows: seq<Request>, k: nat)
    requires k < |rows|
    ensures TreatAll(p, rows[..k + 1]) ==
      Treated(p.cfg, p.signs, TreatAll(p, rows[..k]), rows[k], p.replies(rows[k]))
    ensures EthSent(p, rows[..k + 1]) ==
      EthSent(p, rows[..k]) + if DueIn(p, rows[k]) then [EthSubmissionFor(p.signs, rows[k], p.admins)] else []
    ensures WavesSent(p, rows[..k + 1]) ==
      WavesSent(p, rows[..k]) + if DueIn(p, rows[k]) then [WavesSubmissionFor(p.signs, rows[k], p.admins)] else []
    ensures NoneStops(p, rows[..k + 1]) == (NoneStops(p, rows[..k]) && !StopsAt(p, rows[k]))
  {
    assert rows[..k + 1][..k] == rows[..k] && rows[..k + 1][k] == rows[k];
  }

  /** The same for the Waves loop, whether it goes on or not. */
  lemma WavesNext(p: FinalPass, rows: seq<Request>, k: nat, from: nat, trace: Trace, longer: Trace,
                  result: PassResult, after: Requests, submissions: seq<WavesSubmission>,
                  submission: Option<WavesSubmission>)
    requires p.chain == Waves && k < |rows| && rows[k].chain == Waves && from <= |trace.acts| && Longer(trace, longer)
    requires Step(p.cfg, p.signs, p.admins, rows[k], p.replies(rows[k]), result, TreatAll(p, rows[..k]), after,
                  trace, longer)
    requires SubmittedOnly(p.cfg, p.signs, rows[k], p.replies(rows[k]), result, submission,
                           WavesSubmissionFor(p.signs, rows[k], p.admins), trace, longer)
    requires NoneStops(p, rows[..k]) && RecordedAll(p, from, trace, rows[..k]) && submissions == WavesSent(p, rows[..k])
    ensures RecordedAll(p, from, longer, rows[..k + 1])
    ensures Appended(submissions, submission) == WavesSent(p, rows[..k + 1])
    ensures result == ResultAt(p, rows[k])
    ensures if result == Finished then after == TreatAll(p, rows[..k + 1]) && NoneStops(p, rows[..k + 1])
            else after == TreatAll(p, rows[..k])
  {
    OneMore(p, rows, k);
    RecordedOneMore(p, rows, k, from, trace, longer);
  }

  // ----- from the folds to what they mean -----

  lemma {:induction false} NoneStopsIs(p: FinalPass, rows: seq<Request>, i: nat)
    requires NoneStops(p, rows) && i < |rows|
    ensures !StopsAt(p, rows[i])
  {
    if i < |rows| - 1 {
      NoneStopsIs(p, rows[..|rows| - 1], i);
    }
  }

  lemma {:induction false} EthSentIs(p: FinalPass, rows: seq<Request>)
    ensures EthSubmitted(p, DueRows(p, rows), EthSent(p, rows))
  {
    if rows != [] {
      EthSentIs(p, rows[..|rows| - 1]);
    }
  }

  lemma {:induction false} WavesSentIs(p: FinalPass, rows: seq<Request>)
    ensures WavesSubmitted(p, DueRows(p, rows), WavesSent(p, rows))
  {
    if rows != [] {
      WavesSentIs(p, rows[..|rows| - 1]);
    }
  }

  lemma {:induction false} RecordedAllIs(p: FinalPass, from: nat, earlier: nat, trace: Trace, rows: seq<Request>)
    requires RecordedAll(p, from, trace, rows) && earlier <= from
    ensures Recorded(p, earlier, trace, DueRows(p, rows))
    decreases |rows|
  {
    if rows != [] {
      var last := rows[|rows| - 1];
      RecordedAllIs(p, from, earlier, trace, rows[..|rows| - 1]);
      if DueIn(p, last) {
        var k: nat :| from <= k && SubmitAt(p.cfg, p.signs, trace, k, last, SentIn(p, last));
        assert SubmittedSince(p, earlier, trace, last);
      }
    }
  }

  lemma {:induction false} DueRowsAre(p: FinalPass, rows: seq<Request>, row: Request)
    ensures row in DueRows(p, rows) <==> row in rows && DueIn(p, row)
  {
    if rows != [] {
      DueRowsAre(p, rows[..|rows| - 1], row);
      assert rows == rows[..|rows| - 1] + [rows[|rows| - 1]];
    }
  }

  lemma UpToAllIsFinalized(p: FinalPass, rows: seq<Request>, after: Requests)
    requires Keyed(p.before) && AllPending(rows, p.before, Some(p.chain)) && FinalizedUpTo(p, rows, after)
    ensures Finalized(p, after)
  {
  }

  lemma PendingAreStored(p: FinalPass, rows: seq<Request>, k: nat)
    requires AllPending(rows, p.before, Some(p.chain)) && k <= |rows|
    ensures forall i :: 0 <= i < k ==> StoredAt(p, rows, i) && StoredAt(p, rows[..k], i)
  {
    assert forall i :: 0 <= i < k ==> rows[i] in rows;
  }

  lemma PassEnds(p: FinalPass, result: PassResult, rows: seq<Request>, done: nat)
    requires Keyed(p.before) && AllPending(rows, p.before, Some(p.chain)) && done <= |rows|
    requires NoneStops(p, rows[..done])
    requires if done < |rows| then result == ResultAt(p, rows[done]) != Finished else result == Finished
    ensures Ended(p, result, rows, done, TreatAll(p, rows[..done]))
  {
    PendingAreStored(p, rows, done);
    TreatAllIs(p, rows[..done]);
    forall i | 0 <= i < done ensures !StopsAt(p, rows[i]) {
      NoneStopsIs(p, rows[..done], i);
    }
    if done < |rows| {
      assert rows[done] in rows;
    } else {
      assert rows[..done] == rows;
      UpToAllIsFinalized(p, rows, TreatAll(p, rows));
      forall id <- p.before | Pending(p.before[id], p.chain) ensures !StopsAt(p, p.before[id]) {
        assert p.before[id] in rows;
      }
    }
  }

  /** The Ethereum pass has no way to fail but to panic. */
  lemma EthPanicsOnly(p: FinalPass, result: PassResult, rows: seq<Request>, done: nat, after: Requests)
    requires p.chain == Ethereum && Ended(p, result, rows, done, after)
    ensures result == if SomeStops(p) then Panicked else Finished
  {
    if done < |rows| { assert rows[done] in rows; }
  }

  // ----- the pass against the source's own conditions -----

  /** The id decodes, or the contract state has an entry for the row. */
  ghost predicate Known(row: Request, reply: FinalReply) {
    if row.chain == Ethereum then Hex.Decode(row.id).Some? else reply.chainStatus.Some?
  }

  /** What becomes of a row at which the pass does not stop. Reported as Success, it is saved
      as that; else, if the node may submit it, it is submitted, and saved if that was sent;
      else nothing happens. */
  ghost predicate Handled(p: FinalPass, node: Node, row: Request, after: Request, submitted: bool) {
    if Known(row, p.replies(row)) && p.replies(row).chainStatus == Some(SUCCESS)
    then after == row.(status := SUCCESS) && !submitted
    else if Known(row, p.replies(row)) && CanSubmit(p.cfg, node, row)
    then submitted && after == if p.replies(row).outcome == Sent then row.(status := SUCCESS) else row
    else after == row && !submitted
  }

  /** Why a pass stops at a row, and how. */
  ghost predicate Stopped(p: FinalPass, node: Node, row: Request, result: PassResult) {
    var reply := p.replies(row);
    match p.chain
    case Ethereum =>
      && result == Panicked && Known(row, reply) && reply.chainStatus != Some(SUCCESS)
      && CanSubmit(p.cfg, node, row) && EthSlots.SomeShort(QuorumRows(node.signs, row), p.admins)
    case Waves =>
      || (result == Panicked && !Known(row, reply))
      || (result == Failed && Known(row, reply) && reply.chainStatus != Some(SUCCESS)
          && CanSubmit(p.cfg, node, row) && reply.outcome != Sent)
  }

  lemma RowLaw(p: FinalPass, node: Node, row: Request)
    requires node.signs == p.signs && row in node.picked && row.chain == p.chain
    ensures DueIn(p, row) <==> Known(row, p.replies(row)) && p.replies(row).chainStatus != Some(SUCCESS)
                               && CanSubmit(p.cfg, node, row)
    ensures !StopsAt(p, row) ==>
      Handled(p, node, row, if PromotedIn(p, row) then row.(status := SUCCESS) else row, DueIn(p, row))
    ensures StopsAt(p, row) <==> exists result :: Stopped(p, node, row, result)
    ensures StopsAt(p, row) ==> Stopped(p, node, row, ResultAt(p, row))
  {
    var result := ResultAt(p, row);
    if StopsAt(p, row) {
      assert Stopped(p, node, row, result);
    }
  }

  /** The pass did what it had to: it stopped where it had to, at the first such row, and each
      row before that was handled. */
  ghost predicate Lawful(p: FinalPass, node: Node, result: PassResult, rows: seq<Request>, done: nat, after: Requests,
                         submitted: set<string>) {
    && done <= |rows| && (forall row <- rows :: row in node.picked)
    && (forall k :: 0 <= k < done ==>
          && rows[k].id in after
          && Handled(p, node, rows[k], after[rows[k].id], rows[k].id in submitted)
          && forall other :: !Stopped(p, node, rows[k], other))
    && (if done < |rows| then Stopped(p, node, rows[done], result) else result == Finished)
  }

  /** The submissions are of exactly these rows. */
  ghost predicate Submits(p: FinalPass, rows: seq<Request>, submitted: set<string>) {
    forall k :: 0 <= k < |rows| ==> (rows[k].id in submitted <==> DueIn(p, rows[k]))
  }

  ghost function EthIds(submissions: seq<EthSubmission>): (ids: set<string>)
    ensures forall id :: id in ids <==> exists i :: 0 <= i < |submissions| && submissions[i].id == id
  {
    set i | 0 <= i < |submissions| :: submissions[i].id
  }

  ghost function WavesIds(submissions: seq<WavesSubmission>): (ids: set<string>)
    ensures forall id :: id in ids <==> exists i :: 0 <= i < |submissions| && submissions[i].id == id
  {
    set i | 0 <= i < |submissions| :: submissions[i].id
  }

  lemma DueAt(p: FinalPass, rows: seq<Request>, k: nat) returns (i: nat)
    requires k < |rows| && DueIn(p, rows[k])
    ensures i < |DueRows(p, rows)| && DueRows(p, rows)[i] == rows[k]
  {
    DueRowsAre(p, rows, rows[k]);
    i :| i < |DueRows(p, rows)| && DueRows(p, rows)[i] == rows[k];
  }

  lemma NotDue(p: FinalPass, rows: seq<Request>, k: nat)
    requires DistinctIds(rows) && k < |rows| && !DueIn(p, rows[k])
    ensures forall i :: 0 <= i < |DueRows(p, rows)| ==> DueRows(p, rows)[i].id != rows[k].id
  {
    var due := DueRows(p, rows);
    forall i | 0 <= i < |due| ensures due[i].id != rows[k].id {
      DueRowsAre(p, rows, due[i]);
      var j :| 0 <= j < |rows| && rows[j] == due[i];
    }
  }

  lemma EthSubmits(p: FinalPass, rows: seq<Request>, submissions: seq<EthSubmission>)
    requires DistinctIds(rows) && EthSubmitted(p, DueRows(p, rows), submissions)
    ensures Submits(p, rows, EthIds(submissions))
  {
    var due := DueRows(p, rows);
    forall k | 0 <= k < |rows| ensures rows[k].id in EthIds(submissions) <==> DueIn(p, rows[k]) {
      if DueIn(p, rows[k]) {
        var i := DueAt(p, rows, k);
        assert submissions[i].id == rows[k].id;
      } else {
        NotDue(p, rows, k);
        assert forall i :: 0 <= i < |submissions| ==> submissions[i].id == due[i].id;
      }
    }
  }

  lemma WavesSubmits(p: FinalPass, rows: seq<Request>, submissions: seq<WavesSubmission>)
    requires DistinctIds(rows) && WavesSubmitted(p, DueRows(p, rows), submissions)
    ensures Submits(p, rows, WavesIds(submissions))
  {
    var due := DueRows(p, rows);
    forall k | 0 <= k < |rows| ensures rows[k].id in WavesIds(submissions) <==> DueIn(p, rows[k]) {
      if DueIn(p, rows[k]) {
        var i := DueAt(p, rows, k);
        assert submissions[i].id == rows[k].id;
      } else {
        NotDue(p, rows, k);
        assert forall i :: 0 <= i < |submissions| ==> submissions[i].id == due[i].id;
      }
    }
  }

  lemma PassLaw(p: FinalPass, node: Node, result: PassResult, rows: seq<Request>, done: nat, after: Requests,
                tried: nat, submitted: set<string>)
    requires Ended(p, result, rows, done, after) && Keyed(p.before) && done <= tried <= |rows|
    requires Submits(p, rows[..tried], submitted)
    requires node.signs == p.signs && forall row <- rows :: row in node.picked
    ensures Lawful(p, node, result, rows, done, after, submitted)
  {
    forall k | 0 <= k < done
      ensures rows[k].id in after && Handled(p, node, rows[k], after[rows[k].id], rows[k].id in submitted)
      ensures forall other :: !Stopped(p, node, rows[k], other)
    {
      assert rows[k] in rows && rows[k] in rows[..done] && rows[..tried][k] == rows[k];
      RowLaw(p, node, rows[k]);
    }
    if done < |rows| {
      assert rows[done] in rows;
      RowLaw(p, node, rows[done]);
    }
  }

  lemma EthPassEnds(p: FinalPass, node: Node, result: PassResult, rows: seq<Request>, done: nat,
                    submissions: seq<EthSubmission>)
    requires Keyed(p.before) && AllPending(rows, p.before, Some(p.chain)) && done <= |rows|
    requires NoneStops(p, rows[..done]) && submissions == EthSent(p, rows[..done])
    requires if done < |rows| then result == ResultAt(p, rows[done]) != Finished else result == Finished
    requires node.signs == p.signs && forall row <- rows :: row in node.picked
    ensures Ended(p, result, rows, done, TreatAll(p, rows[..done]))
    ensures Lawful(p, node, result, rows, done, TreatAll(p, rows[..done]), EthIds(submissions))
    ensures EthSubmitted(p, DueRows(p, rows[..done]), submissions)
  {
    PassEnds(p, result, rows, done);
    EthSentIs(p, rows[..done]);
    EthSubmits(p, rows[..done], submissions);
    PassLaw(p, node, result, rows, done, TreatAll(p, rows[..done]), done, EthIds(submissions));
  }

  lemma WavesPassEnds(p: FinalPass, node: Node, result: PassResult, rows: seq<Request>, done: nat, tried: nat,
                      submissions: seq<WavesSubmission>)
    requires Keyed(p.before) && AllPending(rows, p.before, Some(p.chain)) && done <= tried <= |rows|
    requires NoneStops(p, rows[..done]) && submissions == WavesSent(p, rows[..tried])
    requires if done < |rows| then result == ResultAt(p, rows[done]) != Finished else result == Finished
    requires node.signs == p.signs && forall row <- rows :: row in node.picked
    ensures Ended(p, result, rows, done, TreatAll(p, rows[..done]))
    ensures Lawful(p, node, result, rows, done, TreatAll(p, rows[..done]), WavesIds(submissions))
    ensures WavesSubmitted(p, DueRows(p, rows[..tried]), submissions)
  {
    PassEnds(p, result, rows, done);
    WavesSentIs(p, rows[..tried]);
    WavesSubmits(p, rows[..tried], submissions);
    PassLaw(p, node, result, rows, done, TreatAll(p, rows[..done]), tried, WavesIds(submissions));
  }

  // ----- both passes -----

  /** The table after both passes, when neither broke off. */
  ghost predicate BothFinalized(cfg: Config, signs: seq<Sign>, before: Requests, after: Requests,
                                eth: Request -> FinalReply, waves: Request -> FinalReply) {
    && after.Keys == before.Keys
    && forall id <- before ::
         var row := before[id];
         var reply := if row.chain == Ethereum then eth(row) else waves(row);
         after[id] == if row.status == NEW && Promoted(cfg, signs, row, reply) then row.(status := SUCCESS) else row
  }

  /** The Waves pass is not disturbed by the Ethereum pass before it. */
  lemma WavesUndisturbed(eth: FinalPass, first: FinalPass, second: FinalPass)
    requires eth.chain == Ethereum && first.chain == Waves && first.before == eth.before
    requires Finalized(eth, second.before) && second == first.(before := second.before)
    ensures SomeStops(second) == SomeStops(first)
  {
    forall id <- eth.before
      ensures Pending(second.before[id], Waves) == Pending(first.before[id], Waves)
      ensures Pending(first.before[id], Waves) ==> second.before[id] == first.before[id]
    {
    }
    assert forall row :: StopsAt(second, row) == StopsAt(first, row);
    if id :| id in first.before && Pending(first.before[id], Waves) && StopsAt(first, first.before[id]) {
      assert id in second.before && StopsAt(second, second.before[id]);
    }
    if id :| id in second.before && Pending(second.before[id], Waves) && StopsAt(second, second.before[id]) {
      assert id in first.before && StopsAt(first, first.before[id]);
    }
  }

  lemma OneAfterTheOther(eth: FinalPass, waves: FinalPass, after: Requests)
    requires eth.chain == Ethereum && waves.chain == Waves && eth.cfg == waves.cfg && eth.signs == waves.signs
    requires Finalized(eth, waves.before) && Finalized(waves, after)
    ensures BothFinalized(eth.cfg, eth.signs, eth.before, after, eth.replies, waves.replies)
  {
  }
}
