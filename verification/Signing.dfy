/** What the signing pass and the pulling pass make of the signature table
    (signer/signer.go:99-230). */
module Signing {
  import opened Models
  import opened Node
  import opened NodeInvariant
  import opened TokenPairs
  import Hex
  import Messages

  /** What the chains and the wallet answer for one request. No view: the Waves state could
      not be read. The nonce is the wallet's randomness. */
  datatype SignReply = SignReply(view: Option<View>, nonce: int, now: int)

  datatype PullReply = Unreachable | BadStatus | Garbled | Row(sign: Sign)

  ghost predicate DistinctIds(rows: seq<Request>) {
    && (forall row <- rows :: row.id != "")
    && forall i, j :: 0 <= i < j < |rows| ==> rows[i].id != rows[j].id
  }

  /** These are the New rows of the table (of one chain), each once. */
  ghost predicate AllPending(rows: seq<Request>, requests: Requests, chain: Option<ChainType>) {
    && DistinctIds(rows)
    && forall row :: row in rows <==>
         row.id in requests && row == requests[row.id] && row.status == NEW && (chain.None? || row.chain == chain.value)
  }

  // ----- signing -----

  /** The row a signing pass adds for a request, if any. */
  function WillSign(cfg: Config, signs: seq<Sign>, row: Request, reply: SignReply): Option<Sign> {
    if Held(signs, row.id, Oracle(cfg, row.chain)) || reply.view.None?
       || !Accepts(cfg.addressing, reply.view.value, row)
    then None
    else OwnRow(cfg, row, reply.nonce, reply.now)
  }

  /** A vote for this request can be written: its id decodes, or the wallet answers. */
  ghost predicate CanVote(cfg: Config, row: Request, nonce: int) {
    match row.chain
    case Ethereum => Hex.Decode(row.id).Some?
    case Waves => cfg.wavesSign(row.id + "_3", nonce).Some?
  }

  /** This is the node's own Success row for the request. */
  ghost predicate IsOwnVote(cfg: Config, row: Request, nonce: int, now: int, own: Sign) {
    && own.requestId == row.id && own.status == SUCCESS && own.createdAt == now
    && match row.chain
       case Ethereum =>
         && own.validatorAddress == own.validatorPubKey == cfg.ethOracle
         && (Hex.Decode(row.id).Some? && |Hex.Decode(row.id).value| == 32 ==>
               own.sign == Hex.Encode(cfg.ethSign(Messages.EthVote(Hex.Decode(row.id).value))))
       case Waves =>
         && own.validatorAddress == cfg.wavesOracle
         && cfg.wavesSign(row.id + "_3", nonce) == Some(SignedText(own.validatorPubKey, own.sign))
  }

  lemma OwnRowIsVote(cfg: Config, row: Request, nonce: int, now: int)
    ensures OwnRow(cfg, row, nonce, now).Some? <==> CanVote(cfg, row, nonce)
    ensures OwnRow(cfg, row, nonce, now).Some? ==> IsOwnVote(cfg, row, nonce, now, OwnRow(cfg, row, nonce, now).value)
  {
    Messages.WavesVoteText(row.id);
    if row.chain == Ethereum && Hex.Decode(row.id).Some? && |Hex.Decode(row.id).value| == 32 {
      Messages.VoteBytes(row.id);
    }
  }

  /** A request is signed, with the node's vote for it, exactly when it is not signed yet, the
      state of the Waves contract was read, both contracts list its pair as active, and the
      vote can be written. */
  lemma WillSignIff(cfg: Config, signs: seq<Sign>, row: Request, reply: SignReply)
    requires NamedOracles(cfg) && row.id != ""
    ensures WillSign(cfg, signs, row, reply).Some? <==>
      && !HasRow(signs, row.id, if row.chain == Ethereum then cfg.ethOracle else cfg.wavesOracle)
      && reply.view.Some? && PairListed(cfg.addressing, reply.view.value, row) && CanVote(cfg, row, reply.nonce)
    ensures WillSign(cfg, signs, row, reply).Some? ==>
      IsOwnVote(cfg, row, reply.nonce, reply.now, WillSign(cfg, signs, row, reply).value)
  {
    HeldIff(signs, row.id, Oracle(cfg, row.chain));
    OwnRowIsVote(cfg, row, reply.nonce, reply.now);
    if reply.view.Some? { AcceptsIffListed(cfg.addressing, reply.view.value, row); }
  }

  /** From the chain to the signature: a request cached from Ethereum is signed exactly for
      the pair of the token it names, */
  lemma EthRequestSignedIff(cfg: Config, signs: seq<Sign>, hash: seq<Byte>, rq: EthRequest, reply: SignReply)
    requires NamedOracles(cfg) && |hash| == 32
    ensures WillSign(cfg, signs, EthRow(hash, rq), reply).Some? <==>
      && !HasRow(signs, Hex.Encode(hash), cfg.ethOracle) && reply.view.Some?
      && exists asset :: Listed(cfg.addressing, reply.view.value, rq.tokenAddress, asset)
  {
    Hex.EthIdOfHash(hash);
    WillSignIff(cfg, signs, EthRow(hash, rq), reply);
  }

  /** and one cached from Waves exactly for the pair of the asset it names. */
  lemma WavesRequestSignedIff(cfg: Config, signs: seq<Sign>, id: string, item: WavesItem, reply: SignReply)
    requires NamedOracles(cfg) && id != ""
    ensures WillSign(cfg, signs, WavesRow(id, item), reply).Some? <==>
      && !HasRow(signs, id, cfg.wavesOracle) && reply.view.Some? && cfg.wavesSign(id + "_3", reply.nonce).Some?
      && exists erc :: Listed(cfg.addressing, reply.view.value, erc, item.assetId)
  {
    WillSignIff(cfg, signs, WavesRow(id, item), reply);
  }

  /** The rows a signing pass adds, in the order it reads the requests. */
  function SignAll(cfg: Config, signs: seq<Sign>, rows: seq<Request>, replies: Request -> SignReply): seq<Sign> {
    if rows == [] then []
    else
      var init, last := SignAll(cfg, signs, rows[..|rows| - 1], replies), rows[|rows| - 1];
      match WillSign(cfg, signs, last, replies(last))
      case None => init
      case Some(own) => init + [own]
  }

  lemma {:induction false} SignAllIds(cfg: Config, signs: seq<Sign>, rows: seq<Request>, replies: Request -> SignReply)
    ensures forall own <- SignAll(cfg, signs, rows, replies) ::
      exists row :: row in rows && WillSign(cfg, signs, row, replies(row)) == Some(own) && own.requestId == row.id
  {
    if rows != [] {
      SignAllIds(cfg, signs, rows[..|rows| - 1], replies);
      assert rows == rows[..|rows| - 1] + [rows[|rows| - 1]];
    }
  }

  lemma {:induction false} SignAllHas(cfg: Config, signs: seq<Sign>, rows: seq<Request>, row: Request,
                                      replies: Request -> SignReply)
    requires row in rows && WillSign(cfg, signs, row, replies(row)).Some?
    ensures WillSign(cfg, signs, row, replies(row)).value in SignAll(cfg, signs, rows, replies)
  {
    if row != rows[|rows| - 1] {
      SignAllHas(cfg, signs, rows[..|rows| - 1], row, replies);
    }
  }

  /** Whether a row is signed does not depend on what the same pass signed before it. */
  lemma EarlierRowsDoNotMatter(cfg: Config, signs: seq<Sign>, rows: seq<Request>, k: nat, replies: Request -> SignReply)
    requires DistinctIds(rows) && k < |rows|
    ensures WillSign(cfg, signs + SignAll(cfg, signs, rows[..k], replies), rows[k], replies(rows[k])) ==
      WillSign(cfg, signs, rows[k], replies(rows[k]))
  {
    var extra := SignAll(cfg, signs, rows[..k], replies);
    SignAllIds(cfg, signs, rows[..k], replies);
    forall own <- extra ensures own.requestId != rows[k].id {
      var row :| row in rows[..k] && own.requestId == row.id;
    }
    HeldOther(signs, extra, rows[k].id, Oracle(cfg, rows[k].chain));
  }

  /** One row further, in terms of the table as it is by then. */
  lemma SignAllStep(cfg: Config, signs: seq<Sign>, rows: seq<Request>, k: nat, replies: Request -> SignReply)
    requires DistinctIds(rows) && k < |rows|
    ensures var now := signs + SignAll(cfg, signs, rows[..k], replies);
      signs + SignAll(cfg, signs, rows[..k + 1], replies) ==
      match WillSign(cfg, now, rows[k], replies(rows[k])) { case None => now case Some(own) => now + [own] }
  {
    EarlierRowsDoNotMatter(cfg, signs, rows, k, replies);
    assert rows[..k + 1][..k] == rows[..k] && rows[..k + 1][k] == rows[k];
    assert |rows[..k + 1]| - 1 == k;
  }

  /** Signing once: a table with one row per validator and request stays one. */
  lemma {:induction false} SigningKeepsUnique(cfg: Config, signs: seq<Sign>, rows: seq<Request>,
                                              replies: Request -> SignReply)
    requires NamedOracles(cfg) && DistinctIds(rows) && Unique(signs)
    ensures Unique(signs + SignAll(cfg, signs, rows, replies))
  {
    if rows == [] {
      assert signs + SignAll(cfg, signs, rows, replies) == signs;
    } else {
      var k := |rows| - 1;
      var before := signs + SignAll(cfg, signs, rows[..k], replies);
      SigningKeepsUnique(cfg, signs, rows[..k], replies);
      EarlierRowsDoNotMatter(cfg, signs, rows, k, replies);
      HeldIff(before, rows[k].id, Oracle(cfg, rows[k].chain));
      var own := WillSign(cfg, signs, rows[k], replies(rows[k]));
      if own.Some? {
        assert signs + SignAll(cfg, signs, rows, replies) == before + [own.value];
        UniqueAppend(before, own.value);
      }
    }
  }

  // ----- pulling -----

  /** A reply of a peer that runs this code: HandleGetSign answers about the request asked for. */
  ghost predicate HonestPull(row: Request, reply: PullReply) {
    reply.Row? ==> reply.sign.requestId == row.id && reply.sign.validatorAddress != ""
  }

  ghost predicate HonestPeers(replies: (Request, string) -> PullReply) {
    forall row, ip :: HonestPull(row, replies(row, ip))
  }

  /** The table after one reply: stored unless a row of that validator is held already. */
  function PullInto(signs: seq<Sign>, row: Request, reply: PullReply): seq<Sign> {
    if reply.Row? && !Held(signs, row.id, reply.sign.validatorAddress) then signs + [reply.sign] else signs
  }

  function PullFromAll(signs: seq<Sign>, row: Request, ips: seq<string>,
                       replies: (Request, string) -> PullReply): seq<Sign> {
    if ips == [] then signs
    else
      var init, last := PullFromAll(signs, row, ips[..|ips| - 1], replies), ips[|ips| - 1];
      PullInto(init, row, replies(row, last))
  }

  function PullAll(signs: seq<Sign>, rows: seq<Request>, ips: seq<string>,
                   replies: (Request, string) -> PullReply): seq<Sign> {
    if rows == [] then signs
    else PullFromAll(PullAll(signs, rows[..|rows| - 1], ips, replies), rows[|rows| - 1], ips, replies)
  }

  ghost predicate RepliedFor(rows: seq<Request>, ips: seq<string>, replies: (Request, string) -> PullReply, sign: Sign) {
    exists row, ip :: row in rows && ip in ips && replies(row, ip) == Row(sign)
  }

  lemma {:induction false} PullFromAllAdds(signs: seq<Sign>, row: Request, ips: seq<string>,
                                           replies: (Request, string) -> PullReply)
    requires HonestPeers(replies) && row.id != ""
    ensures var after := PullFromAll(signs, row, ips, replies);
      && signs <= after
      && (Unique(signs) ==> Unique(after))
      && (forall i :: |signs| <= i < |after| ==> RepliedFor([row], ips, replies, after[i]))
      && (forall ip <- ips :: replies(row, ip).Row? ==> HasRow(after, row.id, replies(row, ip).sign.validatorAddress))
  {
    if ips != [] {
      var init, last := ips[..|ips| - 1], ips[|ips| - 1];
      assert ips == init + [last];
      PullFromAllAdds(signs, row, init, replies);
      var before, reply := PullFromAll(signs, row, init, replies), replies(row, last);
      if reply.Row? {
        HeldIff(before, row.id, reply.sign.validatorAddress);
        assert RepliedFor([row], ips, replies, reply.sign);
        if Unique(signs) && !Held(before, row.id, reply.sign.validatorAddress) { UniqueAppend(before, reply.sign); }
      }
    }
  }

  /** Pulling adds only what peers replied, ends with a row of every validator that answered
      for every request, and if the peers run this code leaves one row for each. */
  lemma {:induction false} PullAllAdds(signs: seq<Sign>, rows: seq<Request>, ips: seq<string>,
                                       replies: (Request, string) -> PullReply)
    requires HonestPeers(replies) && forall row <- rows :: row.id != ""
    ensures var after := PullAll(signs, rows, ips, replies);
      && signs <= after
      && (Unique(signs) ==> Unique(after))
      && (forall i :: |signs| <= i < |after| ==> RepliedFor(rows, ips, replies, after[i]))
      && (forall row <- rows, ip <- ips :: replies(row, ip).Row? ==>
            HasRow(after, row.id, replies(row, ip).sign.validatorAddress))
  {
    if rows != [] {
      var init, last := rows[..|rows| - 1], rows[|rows| - 1];
      assert rows == init + [last];
      PullAllAdds(signs, init, ips, replies);
      PullFromAllAdds(PullAll(signs, init, ips, replies), last, ips, replies);
    }
  }

  // ----- both -----

  /** Every New request the node accepts and can sign has its own row, and every reply about a
      New request has left one of its validator. */
  ghost predicate Collected(cfg: Config, before: seq<Sign>, after: seq<Sign>, requests: Requests, ips: seq<string>,
                            signing: Request -> SignReply, pulling: (Request, string) -> PullReply) {
    && before <= after
    && forall id <- requests ::
         var row := requests[id];
         row.status == NEW ==>
           && (WillSign(cfg, before, row, signing(row)).Some? ==>
                 WillSign(cfg, before, row, signing(row)).value in after)
           && forall ip <- ips :: pulling(row, ip).Row? ==>
                HasRow(after, row.id, pulling(row, ip).sign.validatorAddress)
  }

  lemma SignedAndPulled(cfg: Config, before: seq<Sign>, requests: Requests, signed: seq<Request>, pulled: seq<Request>,
                        ips: seq<string>, signing: Request -> SignReply, pulling: (Request, string) -> PullReply)
    requires HonestPeers(pulling) && (forall id <- requests :: requests[id].id == id)
    requires AllPending(signed, requests, None) && AllPending(pulled, requests, None)
    ensures Collected(cfg, before, PullAll(before + SignAll(cfg, before, signed, signing), pulled, ips, pulling),
                      requests, ips, signing, pulling)
  {
    var own := before + SignAll(cfg, before, signed, signing);
    PullAllAdds(own, pulled, ips, pulling);
    var after := PullAll(own, pulled, ips, pulling);
    forall id <- requests | requests[id].status == NEW
      ensures var row := requests[id];
        && (WillSign(cfg, before, row, signing(row)).Some? ==> WillSign(cfg, before, row, signing(row)).value in after)
        && forall ip <- ips :: pulling(row, ip).Row? ==> HasRow(after, row.id, pulling(row, ip).sign.validatorAddress)
    {
      var row := requests[id];
      assert row in signed && row in pulled;
      if WillSign(cfg, before, row, signing(row)).Some? {
        SignAllHas(cfg, before, signed, row, signing);
        assert WillSign(cfg, before, row, signing(row)).value in own;
      }
    }
  }
}
