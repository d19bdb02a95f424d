/** One validator as a state machine. An act is one database operation of one of its three
    loops (Ethereum cacher, Waves cacher, signer), so that any interleaving of the loops is
    a sequence of acts. An act whose guard does not hold changes nothing. */
module Node {
  import opened Models
  import opened TokenPairs
  import Hex
  import Messages

  datatype Config = Config(
    ethOracle: string,
    wavesOracle: string,
    bftCoefficient: int,
    rqTimeout: int,
    ethDepth: int,
    wavesDepth: int,
    addressing: Addressing,
    ethSign: seq<Byte> -> seq<Byte>,  // signs the Keccak hash of a preimage with the node's key
    wavesSign: (string, int) -> Option<SignedText>  // the node's Waves wallet; the number is its randomness
  )

  datatype SignedText = SignedText(publicKey: string, signature: string)

  function Oracle(cfg: Config, chain: ChainType): string {
    match chain
    case Ethereum => cfg.ethOracle
    case Waves => cfg.wavesOracle
  }

  function Depth(cfg: Config, chain: ChainType): int {
    match chain
    case Ethereum => cfg.ethDepth
    case Waves => cfg.wavesDepth
  }

  // ----- what the chains answer -----

  datatype EthRequest = EthRequest(
    height: int,
    status: Status,
    tokenAmount: string,
    owner: string,
    target: string,
    rqType: int,
    tokenAddress: string,
    targetRqId: string
  )

  datatype WavesItem = WavesItem(
    height: int,
    status: Status,
    amount: string,
    owner: string,
    target: string,
    rqType: int,
    assetId: string,
    targetRqId: string,
    prev: string
  )

  function EthRow(hash: seq<Byte>, rq: EthRequest): Request {
    Request(Hex.Encode(hash), ToInt32(rq.height), rq.status, rq.tokenAmount, ToLower(rq.owner), rq.target,
            Ethereum, rq.rqType, rq.tokenAddress, rq.targetRqId)
  }

  function WavesRow(id: string, item: WavesItem): Request {
    Request(id, ToInt32(item.height), item.status, item.amount, item.owner, ToLower(item.target),
            Waves, item.rqType, item.assetId, item.targetRqId)
  }

  /** The row stores the request as the Ethereum contract shows it, the owner in lower case. */
  ghost predicate ShowsEth(row: Request, hash: seq<Byte>, rq: EthRequest) {
    && row.id == Hex.Encode(hash) && row.chain == Ethereum
    && row.createdAt == ToInt32(rq.height) && row.status == rq.status
    && row.amount == rq.tokenAmount && row.owner == ToLower(rq.owner) && row.target == rq.target
    && row.rqType == rq.rqType && row.assetId == rq.tokenAddress && row.targetRequestId == rq.targetRqId
  }

  /** The row stores the order as the Waves contract shows it, the target in lower case. */
  ghost predicate ShowsWaves(row: Request, id: string, item: WavesItem) {
    && row.id == id && row.chain == Waves
    && row.createdAt == ToInt32(item.height) && row.status == item.status
    && row.amount == item.amount && row.owner == item.owner && row.target == ToLower(item.target)
    && row.rqType == item.rqType && row.assetId == item.assetId && row.targetRequestId == item.targetRqId
  }

  lemma RowsShow(hash: seq<Byte>, rq: EthRequest, id: string, item: WavesItem)
    ensures ShowsEth(EthRow(hash, rq), hash, rq) && ShowsWaves(WavesRow(id, item), id, item)
  {
  }

  /** The two tests at the top of both cacher loops. */
  predicate Unconfirmed(rqHeight: int, height: int, depth: int) {
    rqHeight > height - depth
  }

  predicate Expired(rqHeight: int, height: int, rqTimeout: int) {
    height > rqHeight + rqTimeout
  }

  // ----- the tables and what the loops hold between two operations -----

  datatype Sighting = Sighting(rqHeight: int, observed: int)

  /** A cacher between looking a row up and writing it. */
  datatype Cursor = Idle | Looked(incoming: Request, sighting: Sighting, found: Option<Request>)

  datatype Node = Node(
    requests: Requests,
    signs: seq<Sign>,
    picked: set<Request>,             // rows the signer read and has not forgotten
    cleared: set<string>,             // requests the signer may save as Success
    ethCursor: Cursor,
    wavesCursor: Cursor,
    sightings: map<string, Sighting>, // heights at which a row was first cached
    accepted: map<string, View>,      // what the chains said when the node last signed a request
    ethTop: int                       // highest Ethereum height observed
  )

  const EMPTY: Node := Node(map[], [], {}, {}, Idle, Idle, map[], map[], 0)

  datatype Act =
    | EthLook(hash: seq<Byte>, rq: EthRequest, height: int)
    | EthWrite
    | EthSweep(height: int)
    | WavesLook(id: string, item: WavesItem, height: int)
    | WavesWrite
    | WavesSweep(height: int)
    | Pick
    | SignOwn(row: Request, view: View, nonce: int, now: int)
    | Receive(row: Request, reply: Sign)
    | SeeSuccess(row: Request)
    | Submit(row: Request, sent: bool)
    | SaveSuccess(row: Request)

  // ----- the cachers -----

  function Write(node: Node, incoming: Request, sighting: Sighting, found: Option<Request>): Node {
    match found
    case Some(row) =>
      if row.status == incoming.status then node
      else node.(requests := node.requests[row.id := row.(status := incoming.status)])
    case None =>
      node.(requests := node.requests[incoming.id := incoming], sightings := node.sightings[incoming.id := sighting])
  }

  /** Both sweeps filter on the Ethereum chain. */
  function Swept(row: Request, height: int, rqTimeout: int): Request {
    if row.chain == Ethereum && row.createdAt <= height - rqTimeout then row.(status := REJECTED) else row
  }

  function Sweep(requests: Requests, height: int, rqTimeout: int): Requests {
    map id <- requests :: Swept(requests[id], height, rqTimeout)
  }

  // ----- the signer -----

  function NewRows(requests: Requests): set<Request> {
    set id <- requests | requests[id].status == NEW :: requests[id]
  }

  /** The text stored for an Ethereum signature: no bytes when the signing call failed. */
  function EthSignature(cfg: Config, message: seq<Byte>): string {
    Hex.Encode(cfg.ethSign(Messages.Preimage(message)))
  }

  /** The row a node stores when it signs; None when the id does not decode or the wallet
      does not answer. */
  function OwnRow(cfg: Config, row: Request, nonce: int, now: int): Option<Sign> {
    match row.chain
    case Waves =>
      (match cfg.wavesSign(Messages.FormatWavesMsg(row.id, SUCCESS), nonce)
       case None => None
       case Some(text) => Some(Sign(row.id, cfg.wavesOracle, text.signature, text.publicKey, now, SUCCESS)))
    case Ethereum =>
      match Messages.FormatEthMsg(row.id, SUCCESS)
      case None => None
      case Some(message) =>
        Some(Sign(row.id, cfg.ethOracle, EthSignature(cfg, message), cfg.ethOracle, now, SUCCESS))
  }

  predicate CanSign(cfg: Config, node: Node, row: Request, view: View, own: Option<Sign>) {
    && row in node.picked
    && !Held(node.signs, row.id, Oracle(cfg, row.chain))
    && Accepts(cfg.addressing, view, row)
    && own.Some?
  }

  /** The rows counted by the quorum test: only the Ethereum finalizer filters on the status. */
  function QuorumRows(signs: seq<Sign>, row: Request): (counted: seq<Sign>)
    ensures row.id != "" ==> forall s :: s in counted <==>
      s in signs && s.requestId == row.id && (row.chain == Ethereum ==> s.status == SUCCESS)
  {
    SignsFor(signs, row.id, if row.chain == Ethereum then Some(SUCCESS) else None)
  }

  predicate CanSubmit(cfg: Config, node: Node, row: Request) {
    row in node.picked && |QuorumRows(node.signs, row)| >= cfg.bftCoefficient
  }

  // ----- one act, and a run of acts -----

  function Apply(cfg: Config, node: Node, act: Act): Node {
    match act
    case EthLook(hash, rq, height) =>
      if node.ethCursor.Idle? && |hash| == 32 && 0 <= rq.height
         && !Unconfirmed(rq.height, height, cfg.ethDepth) && !Expired(rq.height, height, cfg.rqTimeout)
      then node.(ethCursor := Looked(EthRow(hash, rq), Sighting(rq.height, height),
                                     Lookup(node.requests, Hex.Encode(hash))),
                 ethTop := if height > node.ethTop then height else node.ethTop)
      else node
    case EthWrite =>
      (match node.ethCursor
       case Idle => node
       case Looked(incoming, sighting, found) => Write(node, incoming, sighting, found).(ethCursor := Idle))
    case EthSweep(height) =>
      node.(requests := Sweep(node.requests, height, cfg.rqTimeout),
            ethTop := if height > node.ethTop then height else node.ethTop)
    case WavesLook(id, item, height) =>
      if node.wavesCursor.Idle? && id != "" && !Hex.IsEthId(id) && 0 <= item.height
         && !Unconfirmed(item.height, height, cfg.wavesDepth) && !Expired(item.height, height, cfg.rqTimeout)
      then node.(wavesCursor := Looked(WavesRow(id, item), Sighting(item.height, height), Lookup(node.requests, id)))
      else node
    case WavesWrite =>
      (match node.wavesCursor
       case Idle => node
       case Looked(incoming, sighting, found) => Write(node, incoming, sighting, found).(wavesCursor := Idle))
    case WavesSweep(height) =>
      node.(requests := Sweep(node.requests, height, cfg.rqTimeout))
    case Pick =>
      node.(picked := node.picked + NewRows(node.requests))
    case SignOwn(row, view, nonce, now) =>
      var own := OwnRow(cfg, row, nonce, now);
      if CanSign(cfg, node, row, view, own)
      then node.(signs := node.signs + [own.value], accepted := node.accepted[row.id := view])
      else node
    case Receive(row, reply) =>
      if row in node.picked && !Held(node.signs, row.id, reply.validatorAddress)
      then node.(signs := node.signs + [reply])
      else node
    case SeeSuccess(row) =>
      if row in node.picked then node.(cleared := node.cleared + {row.id}) else node
    case Submit(row, sent) =>
      if CanSubmit(cfg, node, row) && sent then node.(cleared := node.cleared + {row.id}) else node
    case SaveSuccess(row) =>
      if row in node.picked && row.id in node.cleared
      then node.(requests := node.requests[row.id := row.(status := SUCCESS)])
      else node
  }

  function Run(cfg: Config, start: Node, acts: seq<Act>): Node {
    if acts == [] then start
    else Apply(cfg, Run(cfg, start, acts[..|acts| - 1]), acts[|acts| - 1])
  }

  lemma RunSnoc(cfg: Config, start: Node, acts: seq<Act>, act: Act)
    ensures Run(cfg, start, acts + [act]) == Apply(cfg, Run(cfg, start, acts), act)
  {
    assert (acts + [act])[..|acts|] == acts;
  }

  /** Acts done one after another, with the states before the first and after each. */
  datatype Trace = Trace(acts: seq<Act>, states: seq<Node>)

  const UNUSED: Trace := Trace([], [EMPTY])

  ghost predicate IsTrace(cfg: Config, trace: Trace) {
    && |trace.states| == |trace.acts| + 1 && trace.states[0] == EMPTY
    && forall i {:trigger Apply(cfg, trace.states[i], trace.acts[i])} :: 0 <= i < |trace.acts| ==>
         trace.states[i + 1] == Apply(cfg, trace.states[i], trace.acts[i])
  }

  ghost function Last(trace: Trace): Node {
    if trace.states == [] then EMPTY else trace.states[|trace.states| - 1]
  }

  ghost function Snoc(cfg: Config, trace: Trace, act: Act): (longer: Trace)
    requires IsTrace(cfg, trace)
    ensures IsTrace(cfg, longer) && Last(longer) == Apply(cfg, Last(trace), act)
  {
    var longer := Trace(trace.acts + [act], trace.states + [Apply(cfg, Last(trace), act)]);
    assert forall i :: 0 <= i < |trace.acts| ==> longer.states[i] == trace.states[i] && longer.acts[i] == trace.acts[i];
    assert longer.states[|trace.acts|] == Last(trace) && longer.acts[|trace.acts|] == act;
    longer
  }

  lemma {:induction false} TraceIsRun(cfg: Config, trace: Trace, k: nat)
    requires IsTrace(cfg, trace) && k <= |trace.acts|
    ensures trace.states[k] == Run(cfg, EMPTY, trace.acts[..k])
  {
    if k > 0 {
      TraceIsRun(cfg, trace, k - 1);
      assert trace.acts[..k][..k - 1] == trace.acts[..k - 1];
      assert trace.states[k] == Apply(cfg, trace.states[k - 1], trace.acts[k - 1]);
    }
  }

  // ----- the peer-side handler -----

  /** What a node answers when asked for its signature (server/server.go); None is an error
      status. */
  function HandleGetSign(cfg: Config, requests: Requests, signs: seq<Sign>, requestHash: string): (r: Option<Sign>)
    ensures r.Some? ==>
      && r.value in signs && r.value.requestId == requestHash && requestHash in requests
      && Matches(r.value, requestHash, Oracle(cfg, requests[requestHash].chain))
    ensures r.None? && requestHash != "" && requestHash in requests && Oracle(cfg, requests[requestHash].chain) != "" ==>
      !HasRow(signs, requestHash, Oracle(cfg, requests[requestHash].chain))
  {
    if requestHash == "" || requestHash !in requests then None
    else
      match LastSign(signs, requestHash, Oracle(cfg, requests[requestHash].chain))
      case None => None
      case Some(sign) => if sign.requestId != requestHash then None else Some(sign)
  }
}
