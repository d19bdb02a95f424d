/** What every act keeps on one node, and what no act ever takes away. */
module NodeInvariant {
  import opened Models
  import opened Node
  import opened TokenPairs
  import Hex

  /** A cached row was deep enough when it was first cached, and its chain can be told from
      its id. */
  ghost predicate RowOk(cfg: Config, row: Request, sighting: Sighting, ethTop: int) {
    && row.id != ""
    && (row.chain == Ethereum <==> Hex.IsEthId(row.id))
    && 0 <= sighting.rqHeight <= sighting.observed - Depth(cfg, row.chain)
    && sighting.observed <= sighting.rqHeight + cfg.rqTimeout
    && row.createdAt == ToInt32(sighting.rqHeight)
    && (row.chain == Ethereum ==> sighting.observed <= ethTop)
  }

  ghost predicate TableOk(cfg: Config, node: Node) {
    forall id <- node.requests ::
      && node.requests[id].id == id
      && id in node.sightings
      && RowOk(cfg, node.requests[id], node.sightings[id], node.ethTop)
  }

  /** A row read earlier differs from the stored one in its status at most. */
  ghost predicate Stale(node: Node, row: Request) {
    row.id in node.requests && SameButStatus(row, node.requests[row.id])
  }

  /** The signer only handles rows that were New when it read them. */
  ghost predicate PickedOk(node: Node) {
    forall row <- node.picked :: Stale(node, row) && row.status == NEW
  }

  /** A missing row stays missing until the cacher that looked for it writes: the other
      cacher handles ids of the other chain. */
  ghost predicate CursorOk(cfg: Config, node: Node, cursor: Cursor, chain: ChainType) {
    cursor.Looked? ==>
      && cursor.incoming.chain == chain
      && RowOk(cfg, cursor.incoming, cursor.sighting, node.ethTop)
      && (cursor.found.None? ==> cursor.incoming.id !in node.requests)
      && (cursor.found.Some? ==> cursor.found.value.id == cursor.incoming.id && Stale(node, cursor.found.value))
  }

  /** A request the node signed has a token pair both chains agreed on when it did. */
  ghost predicate Vetted(cfg: Config, node: Node, id: string) {
    && id in node.accepted && id in node.requests
    && Accepts(cfg.addressing, node.accepted[id], node.requests[id])
  }

  ghost predicate AcceptedOk(cfg: Config, node: Node) {
    forall id <- node.accepted :: Vetted(cfg, node, id)
  }

  ghost predicate NodeInv(cfg: Config, node: Node) {
    && TableOk(cfg, node)
    && PickedOk(node)
    && CursorOk(cfg, node, node.ethCursor, Ethereum)
    && CursorOk(cfg, node, node.wavesCursor, Waves)
    && AcceptedOk(cfg, node)
    && Unique(node.signs)
  }

  /** No row disappears, no field but the status changes, no signature is altered. */
  ghost predicate Grows(before: Node, after: Node) {
    && (forall id <- before.requests ::
          && id in after.requests
          && SameButStatus(before.requests[id], after.requests[id])
          && (id in before.sightings ==> id in after.sightings && after.sightings[id] == before.sightings[id]))
    && before.signs <= after.signs
    && before.accepted.Keys <= after.accepted.Keys
  }

  lemma GrowsTransitive(a: Node, b: Node, c: Node)
    requires Grows(a, b) && Grows(b, c)
    ensures Grows(a, c)
  {
  }

  ghost predicate HonestReply(act: Act) {
    act.Receive? ==> act.reply.requestId == act.row.id && act.reply.validatorAddress != ""
  }

  ghost predicate NamedOracles(cfg: Config) {
    cfg.ethOracle != "" && cfg.wavesOracle != ""
  }

  /** Nothing but statuses has changed. */
  lemma RestatusKeeps(cfg: Config, node: Node, after: Node)
    requires NodeInv(cfg, node) && after == node.(requests := after.requests, ethTop := after.ethTop)
    requires after.ethTop >= node.ethTop && after.requests.Keys == node.requests.Keys
    requires forall id <- after.requests :: SameButStatus(node.requests[id], after.requests[id])
    ensures NodeInv(cfg, after) && Grows(node, after)
  {
    assert forall row :: Stale(node, row) ==> Stale(after, row);
    assert forall id :: Vetted(cfg, node, id) ==> Vetted(cfg, after, id);
  }

  /** A whole-row save of a row read earlier changes the stored status and nothing else. */
  lemma SaveStale(cfg: Config, before: Node, after: Node, row: Request, status: Status)
    requires NodeInv(cfg, before) && Stale(before, row)
    requires after == before.(requests := before.requests[row.id := row.(status := status)])
    ensures NodeInv(cfg, after) && Grows(before, after)
  {
    RestatusKeeps(cfg, before, after);
  }

  function Rested(node: Node, chain: ChainType): Node {
    match chain
    case Ethereum => node.(ethCursor := Idle)
    case Waves => node.(wavesCursor := Idle)
  }

  lemma StaleStays(before: Node, after: Node, row: Request)
    requires Grows(before, after) && Stale(before, row)
    ensures Stale(after, row)
  {
  }

  /** A new row of one chain cannot be the row the other cacher found missing. */
  lemma OtherCursorStays(cfg: Config, node: Node, after: Node, cursor: Cursor, chain: ChainType, row: Request)
    requires CursorOk(cfg, node, cursor, chain) && Grows(node, after) && after.ethTop == node.ethTop
    requires after.requests == node.requests[row.id := row]
    requires (row.chain == Ethereum <==> Hex.IsEthId(row.id)) && row.chain != chain
    ensures CursorOk(cfg, after, cursor, chain)
  {
    if cursor.Looked? && cursor.found.Some? {
      StaleStays(node, after, cursor.found.value);
    }
  }

  lemma InsertGrows(cfg: Config, node: Node, after: Node, row: Request, sighting: Sighting)
    requires TableOk(cfg, node) && RowOk(cfg, row, sighting, node.ethTop) && row.id !in node.requests
    requires after == node.(requests := node.requests[row.id := row], sightings := node.sightings[row.id := sighting])
    ensures TableOk(cfg, after) && Grows(node, after)
  {
  }

  lemma ReadStays(cfg: Config, node: Node, after: Node)
    requires Grows(node, after) && after.picked == node.picked && after.accepted == node.accepted
    ensures PickedOk(node) ==> PickedOk(after)
    ensures AcceptedOk(cfg, node) ==> AcceptedOk(cfg, after)
  {
    assert forall row :: Stale(node, row) ==> Stale(after, row);
    assert forall id :: Vetted(cfg, node, id) ==> Vetted(cfg, after, id);
  }

  lemma InsertKeeps(cfg: Config, node: Node, row: Request, sighting: Sighting)
    requires NodeInv(cfg, Rested(node, row.chain)) && RowOk(cfg, row, sighting, node.ethTop)
    requires row.id !in node.requests
    ensures var after := Rested(node, row.chain).(requests := node.requests[row.id := row],
                                                  sightings := node.sightings[row.id := sighting]);
      NodeInv(cfg, after) && Grows(node, after)
  {
    var rested := Rested(node, row.chain);
    var after := rested.(requests := node.requests[row.id := row], sightings := node.sightings[row.id := sighting]);
    InsertGrows(cfg, rested, after, row, sighting);
    ReadStays(cfg, rested, after);
    match row.chain
    case Ethereum => OtherCursorStays(cfg, rested, after, after.wavesCursor, Waves, row);
    case Waves => OtherCursorStays(cfg, rested, after, after.ethCursor, Ethereum, row);
  }

  lemma RestKeeps(cfg: Config, node: Node, chain: ChainType)
    requires NodeInv(cfg, node)
    ensures NodeInv(cfg, Rested(node, chain))
  {
  }

  lemma WriteKeeps(cfg: Config, node: Node, chain: ChainType, cursor: Cursor)
    requires NodeInv(cfg, node) && cursor.Looked? && CursorOk(cfg, node, cursor, chain)
    ensures var after := Rested(Write(node, cursor.incoming, cursor.sighting, cursor.found), chain);
      NodeInv(cfg, after) && Grows(node, after)
  {
    var rested := Rested(node, chain);
    RestKeeps(cfg, node, chain);
    match cursor.found
    case Some(row) =>
      var saved := rested.(requests := rested.requests[row.id := row.(status := cursor.incoming.status)]);
      SaveStale(cfg, rested, saved, row, cursor.incoming.status);
    case None =>
      InsertKeeps(cfg, node, cursor.incoming, cursor.sighting);
  }

  lemma SweptRows(node: Node, height: int, rqTimeout: int)
    ensures var after := Sweep(node.requests, height, rqTimeout);
      && after.Keys == node.requests.Keys
      && forall id <- after :: SameButStatus(node.requests[id], after[id])
  {
  }

  lemma SweepKeeps(cfg: Config, node: Node, height: int, top: int)
    requires NodeInv(cfg, node) && top >= node.ethTop
    ensures var after := node.(requests := Sweep(node.requests, height, cfg.rqTimeout), ethTop := top);
      NodeInv(cfg, after) && Grows(node, after)
  {
    var after := node.(requests := Sweep(node.requests, height, cfg.rqTimeout), ethTop := top);
    SweptRows(node, height, cfg.rqTimeout);
    RestatusKeeps(cfg, node, after);
  }

  lemma LookKeeps(cfg: Config, node: Node, act: Act)
    requires NodeInv(cfg, node) && (act.EthLook? || act.WavesLook?)
    ensures NodeInv(cfg, Apply(cfg, node, act)) && Grows(node, Apply(cfg, node, act))
  {
    if act.EthLook? && |act.hash| == 32 {
      Hex.EthIdOfHash(act.hash);
    }
  }

  lemma AppendKeeps(cfg: Config, node: Node, row: Sign)
    requires NodeInv(cfg, node) && !HasRow(node.signs, row.requestId, row.validatorAddress)
    ensures var after := node.(signs := node.signs + [row]);
      NodeInv(cfg, after) && Grows(node, after)
  {
    UniqueAppend(node.signs, row);
  }

  lemma SignOwnKeeps(cfg: Config, node: Node, row: Request, view: View, own: Sign)
    requires NodeInv(cfg, node) && NamedOracles(cfg) && CanSign(cfg, node, row, view, Some(own))
    requires own.requestId == row.id && own.validatorAddress == Oracle(cfg, row.chain)
    ensures var after := node.(signs := node.signs + [own], accepted := node.accepted[row.id := view]);
      NodeInv(cfg, after) && Grows(node, after)
  {
    assert Stale(node, row) && row.id != "";
    HeldIff(node.signs, row.id, Oracle(cfg, row.chain));
    UniqueAppend(node.signs, own);
  }

  lemma SignKeeps(cfg: Config, node: Node, act: Act)
    requires NodeInv(cfg, node) && (act.SignOwn? || act.Receive?) && HonestReply(act) && NamedOracles(cfg)
    ensures NodeInv(cfg, Apply(cfg, node, act)) && Grows(node, Apply(cfg, node, act))
  {
    if act.SignOwn? {
      var own := OwnRow(cfg, act.row, act.nonce, act.now);
      if CanSign(cfg, node, act.row, act.view, own) { SignOwnKeeps(cfg, node, act.row, act.view, own.value); }
    } else if act.row in node.picked && !Held(node.signs, act.row.id, act.reply.validatorAddress) {
      assert Stale(node, act.row) && act.row.id != "";
      HeldIff(node.signs, act.row.id, act.reply.validatorAddress);
      AppendKeeps(cfg, node, act.reply);
    }
  }

  lemma CacherKeeps(cfg: Config, node: Node, act: Act)
    requires NodeInv(cfg, node)
    requires act.EthWrite? || act.WavesWrite? || act.EthSweep? || act.WavesSweep?
    ensures NodeInv(cfg, Apply(cfg, node, act)) && Grows(node, Apply(cfg, node, act))
  {
    match act
    case EthWrite => if node.ethCursor.Looked? { WriteKeeps(cfg, node, Ethereum, node.ethCursor); }
    case WavesWrite => if node.wavesCursor.Looked? { WriteKeeps(cfg, node, Waves, node.wavesCursor); }
    case EthSweep(height) => SweepKeeps(cfg, node, height, if height > node.ethTop then height else node.ethTop);
    case WavesSweep(height) => SweepKeeps(cfg, node, height, node.ethTop);
  }

  lemma PickKeeps(cfg: Config, node: Node)
    requires NodeInv(cfg, node)
    ensures NodeInv(cfg, Apply(cfg, node, Pick)) && Grows(node, Apply(cfg, node, Pick))
  {
    assert forall row <- NewRows(node.requests) :: Stale(node, row);
  }

  lemma FinalizerKeeps(cfg: Config, node: Node, act: Act)
    requires NodeInv(cfg, node)
    requires act.Pick? || act.SeeSuccess? || act.Submit? || act.SaveSuccess?
    ensures NodeInv(cfg, Apply(cfg, node, act)) && Grows(node, Apply(cfg, node, act))
  {
    if act.Pick? {
      PickKeeps(cfg, node);
    } else if act.SaveSuccess? && act.row in node.picked && act.row.id in node.cleared {
      SaveStale(cfg, node, Apply(cfg, node, act), act.row, SUCCESS);
    }
  }

  /** The invariant is inductive, whichever loop acts next. */
  lemma ApplyKeeps(cfg: Config, node: Node, act: Act)
    requires NodeInv(cfg, node) && HonestReply(act) && NamedOracles(cfg)
    ensures NodeInv(cfg, Apply(cfg, node, act)) && Grows(node, Apply(cfg, node, act))
  {
    if act.EthLook? || act.WavesLook? {
      LookKeeps(cfg, node, act);
    } else if act.SignOwn? || act.Receive? {
      SignKeeps(cfg, node, act);
    } else if act.EthWrite? || act.WavesWrite? || act.EthSweep? || act.WavesSweep? {
      CacherKeeps(cfg, node, act);
    } else {
      FinalizerKeeps(cfg, node, act);
    }
  }

  // ----- how a stored status changes -----

  /** A cacher is about to write the status the chain reports over another one. */
  ghost predicate Overwrites(cursor: Cursor, id: string) {
    && cursor.Looked? && cursor.found.Some? && cursor.found.value.id == id
    && cursor.found.value.status != cursor.incoming.status
  }

  /** The filter of both sweeps. */
  predicate SweptAt(row: Request, height: int, rqTimeout: int) {
    row.chain == Ethereum && row.createdAt <= height - rqTimeout
  }

  /** The status of a stored row after an act. */
  ghost function NextStatus(cfg: Config, node: Node, act: Act, id: string): Status
    requires id in node.requests
  {
    var status := node.requests[id].status;
    match act
    case EthWrite => if Overwrites(node.ethCursor, id) then node.ethCursor.incoming.status else status
    case WavesWrite => if Overwrites(node.wavesCursor, id) then node.wavesCursor.incoming.status else status
    case EthSweep(height) => if SweptAt(node.requests[id], height, cfg.rqTimeout) then REJECTED else status
    case WavesSweep(height) => if SweptAt(node.requests[id], height, cfg.rqTimeout) then REJECTED else status
    case SaveSuccess(row) => if row in node.picked && row.id in node.cleared && row.id == id then SUCCESS else status
    case _ => status
  }

  /** A cacher that found no row inserts one only where there is none. */
  ghost predicate MissingOnly(node: Node, cursor: Cursor) {
    cursor.Looked? && cursor.found.None? ==> cursor.incoming.id !in node.requests
  }

  lemma WriteStatus(node: Node, cursor: Cursor, id: string)
    requires cursor.Looked? && id in node.requests && MissingOnly(node, cursor)
    ensures var after := Write(node, cursor.incoming, cursor.sighting, cursor.found).requests;
      && id in after
      && after[id].status == if Overwrites(cursor, id) then cursor.incoming.status else node.requests[id].status
  {
  }

  lemma StatusAfter(cfg: Config, node: Node, act: Act, id: string)
    requires id in node.requests && MissingOnly(node, node.ethCursor) && MissingOnly(node, node.wavesCursor)
    ensures id in Apply(cfg, node, act).requests
    ensures Apply(cfg, node, act).requests[id].status == NextStatus(cfg, node, act, id)
  {
    match act
    case EthWrite => if node.ethCursor.Looked? { WriteStatus(node, node.ethCursor, id); }
    case WavesWrite => if node.wavesCursor.Looked? { WriteStatus(node, node.wavesCursor, id); }
    case _ =>
  }

  /** Success is not final. A finalized row loses it in exactly two ways: a cacher writes
      another status its chain reports, or a sweep of either cacher finds an old Ethereum row. */
  lemma SuccessLostIff(cfg: Config, node: Node, act: Act, id: string)
    requires NodeInv(cfg, node) && id in node.requests && node.requests[id].status == SUCCESS
    ensures id in Apply(cfg, node, act).requests
    ensures Apply(cfg, node, act).requests[id].status != SUCCESS <==>
      || (act.EthWrite? && Overwrites(node.ethCursor, id) && node.ethCursor.incoming.status != SUCCESS)
      || (act.WavesWrite? && Overwrites(node.wavesCursor, id) && node.wavesCursor.incoming.status != SUCCESS)
      || ((act.EthSweep? || act.WavesSweep?) && SweptAt(node.requests[id], act.height, cfg.rqTimeout))
  {
    StatusAfter(cfg, node, act, id);
  }

  /** Its companion: a stored row becomes Rejected when a cacher writes that status from its
      chain, or when a sweep of either cacher finds it to be an old Ethereum row, and in no
      other way. */
  lemma RejectedIff(cfg: Config, node: Node, act: Act, id: string)
    requires NodeInv(cfg, node) && id in node.requests && node.requests[id].status != REJECTED
    ensures id in Apply(cfg, node, act).requests
    ensures Apply(cfg, node, act).requests[id].status == REJECTED <==>
      || (act.EthWrite? && Overwrites(node.ethCursor, id) && node.ethCursor.incoming.status == REJECTED)
      || (act.WavesWrite? && Overwrites(node.wavesCursor, id) && node.wavesCursor.incoming.status == REJECTED)
      || ((act.EthSweep? || act.WavesSweep?) && SweptAt(node.requests[id], act.height, cfg.rqTimeout))
  {
    StatusAfter(cfg, node, act, id);
  }

  /** A Waves row becomes Rejected only when the Waves contract says so. */
  lemma WavesRejectedIff(cfg: Config, node: Node, act: Act, id: string)
    requires NodeInv(cfg, node) && id in node.requests && node.requests[id].status != REJECTED
    requires node.requests[id].chain == Waves
    ensures id in Apply(cfg, node, act).requests
    ensures Apply(cfg, node, act).requests[id].status == REJECTED <==>
      act.WavesWrite? && Overwrites(node.wavesCursor, id) && node.wavesCursor.incoming.status == REJECTED
  {
    RejectedIff(cfg, node, act, id);
    assert RowOk(cfg, node.requests[id], node.sightings[id], node.ethTop);
  }

  function OwnSweep(chain: ChainType, height: int): Act {
    match chain
    case Ethereum => EthSweep(height)
    case Waves => WavesSweep(height)
  }

  /** What the sweep at the end of a pass is for holds of one chain only: the cacher of a
      row's own chain rejects it, once expired, if and only if it is an Ethereum row. */
  lemma OwnSweepRejectsIff(cfg: Config, node: Node, id: string, height: int)
    requires NodeInv(cfg, node) && id in node.requests && node.requests[id].status != REJECTED
    requires node.requests[id].createdAt <= height - cfg.rqTimeout
    ensures id in Apply(cfg, node, OwnSweep(node.requests[id].chain, height)).requests
    ensures Apply(cfg, node, OwnSweep(node.requests[id].chain, height)).requests[id].status == REJECTED <==>
      node.requests[id].chain == Ethereum
  {
    RejectedIff(cfg, node, OwnSweep(node.requests[id].chain, height), id);
  }

  /** And a Waves sweep measures Ethereum rows against a Waves height: one that is still
      inside the Ethereum window is rejected exactly when that height has run far enough
      ahead of the highest Ethereum height. */
  lemma WavesSweepRejectsIff(cfg: Config, node: Node, id: string, height: int)
    requires NodeInv(cfg, node) && id in node.requests && node.requests[id].status != REJECTED
    requires node.requests[id].chain == Ethereum && node.requests[id].createdAt > node.ethTop - cfg.rqTimeout
    ensures id in Apply(cfg, node, WavesSweep(height)).requests
    ensures Apply(cfg, node, WavesSweep(height)).requests[id].status == REJECTED <==>
      height >= node.requests[id].createdAt + cfg.rqTimeout
    ensures height <= node.ethTop ==> Apply(cfg, node, WavesSweep(height)).requests[id].status != REJECTED
  {
    RejectedIff(cfg, node, WavesSweep(height), id);
  }

  /** With a timeout of 100, a request of Ethereum height 1000 cached at height 1010 has 90
      blocks left; a Waves sweep at height 2000 rejects it. */
  lemma WavesSweepRejectsEarly(cfg: Config, hash: seq<Byte>, rq: EthRequest)
    requires |hash| == 32 && rq.height == 1000 && rq.status == NEW
    requires cfg.rqTimeout == 100 && cfg.ethDepth == 5
    ensures var node := Run(cfg, EMPTY, [EthLook(hash, rq, 1010), EthWrite]);
      var id := Hex.Encode(hash);
      && id in node.requests && node.requests[id].status == NEW
      && !Expired(node.requests[id].createdAt, node.ethTop, 100)
      && Apply(cfg, node, WavesSweep(2000)).requests[id].status == 2
  {
    TwoActs(cfg, EthLook(hash, rq, 1010), EthWrite);
  }

  /** With the same timeout, a Waves request of height 1000 is New after a sweep of its own
      cacher at height 2000. */
  lemma ExpiredWavesRowStaysNew(cfg: Config, id: string, item: WavesItem)
    requires id != "" && !Hex.IsEthId(id) && item.height == 1000 && item.status == NEW
    requires cfg.rqTimeout == 100 && cfg.wavesDepth == 5
    ensures var node := Run(cfg, EMPTY, [WavesLook(id, item, 1010), WavesWrite]);
      && id in node.requests && Expired(node.requests[id].createdAt, 2000, 100)
      && Apply(cfg, node, WavesSweep(2000)).requests[id].status == 1
  {
    TwoActs(cfg, WavesLook(id, item, 1010), WavesWrite);
  }

  lemma TwoActs(cfg: Config, first: Act, second: Act)
    ensures Run(cfg, EMPTY, [first, second]) == Apply(cfg, Apply(cfg, EMPTY, first), second)
  {
    assert [first, second][..1] == [first] && [first][..0] == [];
    assert Run(cfg, EMPTY, [first]) == Apply(cfg, EMPTY, first);
  }

  // ----- every history -----

  /** Any sequence of acts of one node, from an empty database. */
  lemma {:induction false} HistoryKeeps(cfg: Config, acts: seq<Act>)
    requires NamedOracles(cfg) && forall act <- acts :: HonestReply(act)
    ensures NodeInv(cfg, Run(cfg, EMPTY, acts))
  {
    if acts != [] {
      HistoryKeeps(cfg, acts[..|acts| - 1]);
      ApplyKeeps(cfg, Run(cfg, EMPTY, acts[..|acts| - 1]), acts[|acts| - 1]);
    }
  }

  ghost predicate Longer(before: Trace, after: Trace) {
    before.acts <= after.acts && before.states <= after.states
  }

  /** A node that went on, with honest replies. */
  ghost predicate Extends(before: Trace, after: Trace) {
    Longer(before, after) && forall i :: |before.acts| <= i < |after.acts| ==> HonestReply(after.acts[i])
  }

  /** Whatever a node does after a state that meets the invariant. */
  lemma {:induction false} SuffixKeeps(cfg: Config, trace: Trace, from: nat, end: nat)
    requires NamedOracles(cfg) && IsTrace(cfg, trace) && from <= end <= |trace.acts|
    requires forall i :: from <= i < end ==> HonestReply(trace.acts[i])
    requires NodeInv(cfg, trace.states[from])
    ensures NodeInv(cfg, trace.states[end]) && Grows(trace.states[from], trace.states[end])
    decreases end
  {
    if from != end {
      SuffixKeeps(cfg, trace, from, end - 1);
      var mid, act := trace.states[end - 1], trace.acts[end - 1];
      ApplyKeeps(cfg, mid, act);
      assert trace.states[end] == Apply(cfg, mid, act);
      GrowsTransitive(trace.states[from], mid, trace.states[end]);
    }
  }

  lemma ExtendsKeeps(cfg: Config, before: Trace, after: Trace)
    requires NamedOracles(cfg) && IsTrace(cfg, before) && IsTrace(cfg, after) && Extends(before, after)
    requires NodeInv(cfg, Last(before))
    ensures NodeInv(cfg, Last(after)) && Grows(Last(before), Last(after))
  {
    SuffixKeeps(cfg, after, |before.acts|, |after.acts|);
  }

  // ----- where a Success comes from -----

  ghost predicate Succeeded(node: Node, id: string) {
    id in node.cleared || (id in node.requests && node.requests[id].status == SUCCESS)
  }

  /** The chain reported Success, to a cacher or to the finalizer, or a submission with a
      quorum behind it was sent. */
  ghost predicate Explains(cfg: Config, node: Node, act: Act, id: string) {
    || (act.EthWrite? && Carries(node.ethCursor, id))
    || (act.WavesWrite? && Carries(node.wavesCursor, id))
    || (act.SeeSuccess? && act.row in node.picked && act.row.id == id)
    || (act.Submit? && act.sent && act.row.id == id && CanSubmit(cfg, node, act.row))
  }

  ghost predicate Carries(cursor: Cursor, id: string) {
    cursor.Looked? && cursor.incoming.id == id && cursor.incoming.status == SUCCESS
  }

  lemma NewSuccessExplained(cfg: Config, node: Node, act: Act, id: string)
    requires NodeInv(cfg, node) && !Succeeded(node, id) && Succeeded(Apply(cfg, node, act), id)
    ensures Explains(cfg, node, act, id)
  {
    if act.EthWrite? || act.WavesWrite? {
      var cursor := if act.EthWrite? then node.ethCursor else node.wavesCursor;
      if cursor.Looked? { WriteExplained(node, cursor, id); }
    }
  }

  lemma WriteExplained(node: Node, cursor: Cursor, id: string)
    requires cursor.Looked? && (cursor.found.Some? ==> cursor.found.value.id == cursor.incoming.id)
    requires id in node.requests ==> node.requests[id].status != SUCCESS
    ensures var after := Write(node, cursor.incoming, cursor.sighting, cursor.found).requests;
      id in after && after[id].status == SUCCESS ==> Carries(cursor, id)
  {
  }

  /** In every history a Success in the table goes back to a report of the chain or to a
      submission the quorum test let through: no pass invents one. */
  lemma {:induction false} SuccessExplained(cfg: Config, acts: seq<Act>, id: string) returns (k: nat)
    requires NamedOracles(cfg) && (forall act <- acts :: HonestReply(act))
    requires Succeeded(Run(cfg, EMPTY, acts), id)
    ensures k < |acts| && Explains(cfg, Run(cfg, EMPTY, acts[..k]), acts[k], id)
  {
    var init := acts[..|acts| - 1];
    if Succeeded(Run(cfg, EMPTY, init), id) {
      k := SuccessExplained(cfg, init, id);
      assert init[..k] == acts[..k];
    } else {
      k := |acts| - 1;
      HistoryKeeps(cfg, init);
      NewSuccessExplained(cfg, Run(cfg, EMPTY, init), acts[k], id);
    }
  }

  // ----- the window -----

  /** After every completed Ethereum pass at a height no lower than any seen before, the
      rows still New are exactly windowed, whatever happened in between. */
  lemma EthPassLeavesWindow(cfg: Config, node: Node, height: int)
    requires NodeInv(cfg, node) && height >= node.ethTop
    ensures Apply(cfg, node, EthSweep(height)).ethTop == height
    ensures var after := Apply(cfg, node, EthSweep(height));
      forall id <- after.requests ::
        var row := after.requests[id];
        row.chain == Ethereum && row.status == NEW ==>
          height - cfg.rqTimeout < row.createdAt <= height - cfg.ethDepth
  {
    var after := Apply(cfg, node, EthSweep(height));
    forall id <- after.requests
      ensures after.requests[id].chain == Ethereum && after.requests[id].status == NEW ==>
        height - cfg.rqTimeout < after.requests[id].createdAt <= height - cfg.ethDepth
    {
      assert after.requests[id] == Swept(node.requests[id], height, cfg.rqTimeout);
      assert RowOk(cfg, node.requests[id], node.sightings[id], node.ethTop);
    }
  }
}
