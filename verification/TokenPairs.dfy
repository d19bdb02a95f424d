/** Which token pairs a validator is willing to sign for (signer/signer.go:125-155). */
module TokenPairs {
  import opened Models

  type Address = seq<Byte>

  datatype Token = Token(assetId: string, status: Status)

  /** What the two contracts answer while one request is looked at: the Ethereum token
      table, and the two Waves state entries of an asset. Missing entries are not modelled. */
  datatype View = View(
    token: Address -> Option<Token>,
    erc20Address: string -> string,
    assetStatus: string -> Status
  )

  /** Reading an address from a string, and writing it in the one canonical spelling that
      an Ethereum request row carries. */
  datatype Addressing = Addressing(parse: string -> Address, format: Address -> string) {
    ghost predicate Lawful() {
      forall a: Address :: parse(format(a)) == a
    }

    ghost predicate Canonical(text: string) {
      format(parse(text)) == text
    }
  }

  predicate EthAccepts(addressing: Addressing, view: View, ercAddress: string) {
    var tokenFrom := view.token(addressing.parse(ercAddress));
    && tokenFrom.Some?
    && tokenFrom.value.status == SUCCESS
    && ercAddress == view.erc20Address(tokenFrom.value.assetId)
    && view.assetStatus(tokenFrom.value.assetId) == SUCCESS
  }

  predicate WavesAccepts(addressing: Addressing, view: View, assetId: string) {
    var tokenTo := view.token(addressing.parse(view.erc20Address(assetId)));
    && tokenTo.Some?
    && tokenTo.value.status == SUCCESS
    && assetId == tokenTo.value.assetId
    && view.assetStatus(assetId) == SUCCESS
  }

  predicate Accepts(addressing: Addressing, view: View, request: Request) {
    match request.chain
    case Ethereum => EthAccepts(addressing, view, request.assetId)
    case Waves => WavesAccepts(addressing, view, request.assetId)
  }

  /** Both contracts know this pair of an ERC-20 address, as it is spelt in the Waves state,
      and a Waves asset, and both call it active. */
  ghost predicate Listed(addressing: Addressing, view: View, erc: string, asset: string) {
    && view.token(addressing.parse(erc)) == Some(Token(asset, SUCCESS))
    && view.erc20Address(asset) == erc
    && view.assetStatus(asset) == SUCCESS
  }

  /** A request names one side of its pair: the address on Ethereum, the asset on Waves. */
  ghost predicate PairListed(addressing: Addressing, view: View, request: Request) {
    match request.chain
    case Ethereum => exists asset :: Listed(addressing, view, request.assetId, asset)
    case Waves => exists erc :: Listed(addressing, view, erc, request.assetId)
  }

  /** A request is accepted exactly when both contracts list its pair. */
  lemma AcceptsIffListed(addressing: Addressing, view: View, request: Request)
    ensures Accepts(addressing, view, request) <==> PairListed(addressing, view, request)
  {
    match request.chain
    case Ethereum =>
      var token := view.token(addressing.parse(request.assetId));
      if Accepts(addressing, view, request) {
        assert Listed(addressing, view, request.assetId, token.value.assetId);
      }
    case Waves =>
      if Accepts(addressing, view, request) {
        assert Listed(addressing, view, view.erc20Address(request.assetId), request.assetId);
      }
  }

  /** The pairs accepted on the way from Ethereum and on the way from Waves. */
  predicate EthPair(addressing: Addressing, view: View, ercAddress: string, assetId: string) {
    && EthAccepts(addressing, view, ercAddress)
    && view.token(addressing.parse(ercAddress)).value.assetId == assetId
  }

  predicate WavesPair(addressing: Addressing, view: View, ercAddress: string, assetId: string) {
    WavesAccepts(addressing, view, assetId) && view.erc20Address(assetId) == ercAddress
  }

  /** Both directions accept the same pairs, and each side of a pair fixes the other. */
  lemma PairsAgree(addressing: Addressing, view: View, erc1: string, asset1: string, erc2: string, asset2: string)
    ensures EthPair(addressing, view, erc1, asset1) <==> WavesPair(addressing, view, erc1, asset1)
    ensures EthPair(addressing, view, erc1, asset1) && EthPair(addressing, view, erc2, asset2) ==>
      (erc1 == erc2 <==> asset1 == asset2)
  {
  }

  /** An Ethereum request writes its token canonically. So the token of an asset accepted
      from Waves is accepted from Ethereum exactly when the Waves state stores that spelling. */
  lemma ReturnAcceptedIffCanonical(addressing: Addressing, view: View, assetId: string)
    requires addressing.Lawful() && WavesAccepts(addressing, view, assetId)
    ensures var stored := view.erc20Address(assetId);
      EthAccepts(addressing, view, addressing.format(addressing.parse(stored))) <==> addressing.Canonical(stored)
  {
    var a := addressing.parse(view.erc20Address(assetId));
    assert addressing.parse(addressing.format(a)) == a;
  }
}
