# Verified model of the anti-validators bridge node

One node of an oracle set that moves tokens between Ethereum and Waves. Each node caches the
transfer requests of both chains, signs those it agrees with, collects the signatures of the
other nodes and, once it holds a quorum, submits a status change. The model covers:

- `Models`, `Hex`, `Decimal`, `Messages`: the two table records and the queries on them, the
  hexadecimal and decimal texts digit by digit, the bytes and strings that are signed;
- `TokenPairs`: which token pairs a node signs for;
- `Node`, `NodeInvariant`: one node as a state machine whose acts are single database
  operations of its three loops (Ethereum cacher, Waves cacher, signer), so that every
  interleaving of the loops, including whole-row saves of rows read long before, is a sequence
  of acts;
- `Protocol`, `Submissions`, `QuorumRuns`: any number of nodes, a network that delays, repeats
  and loses replies, what holds in every run, and that runs with submissions exist;
- `EthPass`, `WavesWalk`: what one pass of each cacher does to the request table;
- `EthSlots`, `WavesList`: the r/s/v arrays and the comma-joined list that carry a quorum;
- `Signing`, `Finalizing`: what the signer's passes are meant to make of the two tables, and
  where they stop;
- `Validator`: the node's passes as methods that update its tables in place. A ghost trace
  lists the acts done and the states between them; `Valid()` says that the tables are what
  these acts made of an empty database. Every pass promises that it only adds acts, and no
  dishonest reply (the pulling pass if its peers are honest); so it keeps the node invariant
  (`ExtendsKeeps`, used by `SignerRound`), and what it hands to the contracts is what `Submissions` speaks about when the trace is the
  node's part of a run (`HistoryIsRun`, `HandedOverVotes`, `HandedOverList`);
- `QuorumTurn`: the passes end to end, for any number of nodes: each caches a request, signs it
  and answers for it, and one of them pulls, finalizes and submits;
- `Rounding`, `Currency`: amount conversion with 53-bit rounding over exact rationals.

## Assumptions

All nodes run this code. Oracle addresses are not empty, and no two nodes share one
(`DistinctOracles`). Replies are not altered. Ethereum ids are the encoding of 32 bytes and
Waves order ids are not. `SubmissionCarriesQuorum` also assumes that every validator is an
admin and that signing succeeds with 65 bytes and a recovery id of 0 or 1 (`Registered`).
`WavesSubmissionCarriesQuorum` assumes that every wallet key is an admin, that no two validators
share one, and that wallet signatures are not empty and hold no comma (`RegisteredWaves`).
Everything the chains, the Waves node and the peers answer is a parameter.

## What the proofs show about the code

- The Waves loop's two `continue`s do not move to another order, so a pass that meets an
  unconfirmed or an already cached order never ends (`UnconfirmedOrderHolds`,
  `CachedOrderHolds`). It ends exactly when `ClearPath` holds of its snapshot.
- Success is not final: `SuccessLostIff` lists the two ways a finalized row loses it.
- Both sweeps filter on Ethereum. So no sweep rejects an expired Waves row
  (`OwnSweepRejectsIff`, with an instance in `ExpiredWavesRowStaysNew`); it becomes Rejected only
  when the cacher copies that status from the contract (`WavesRejectedIff`). And the Waves sweep
  measures Ethereum rows against a Waves height: it rejects a row still inside the Ethereum
  window exactly when that height has run far enough ahead (`WavesSweepRejectsIff`, with an
  instance in `WavesSweepRejectsEarly`).
- The Ethereum pass panics exactly when a row is due and a counted signature of an admin is
  short (`FinalizeEthRequest`); with registered validators that does not happen in any run
  (`NeverPanics`). The Waves pass breaks off at the first row
  whose submission is not confirmed, and the rows after it wait; a row that the contract state
  has no entry for makes it panic (`FinalizeWavesRequest`).
- An empty signature for the first admin removes a separator, and all fields shift
  (`ReadsBackIff`).
- The Ethereum quorum test counts stored rows, not filled slots; `FilledIff` says which slots
  are filled without any assumption on the rows.
- Waves asset entries whose stored ERC-20 address is not in the canonical spelling can be
  signed for in one direction only (`ReturnAcceptedIffCanonical`).
- Amounts can grow on the way to more decimals and back: never below 2^51 (`RoundTrip`), but
  already at 1.024 * 2^51 (`RoundTripGains`). Above 2^53 parsing alone can do it
  (`ParsingGains`).

## Model

| member | source | states |
|---|---|---|
| Models.HeldIff | signer/signer.go:113-118 | the look-up into a zero struct followed by an address comparison finds a row exactly when the table has one for this request and validator, given non-empty arguments |
| Models.HeldOther | signer/signer.go:217-219 | the answer does not depend on rows of other requests |
| Models.LastSignIsLast | server/server.go:49-57 | the row found under an oracle address is the last one of the table for this request and that address |
| Models.SignsForPlaces | signer/eth.go:53-58 | the rows the quorum test counts stand at strictly increasing places of the table, one for each |
| Models.PlacesAreAll | signer/eth.go:53-58 | those places are exactly the ones that hold a row of the request, in the given status if one is asked for |
| Models.UniqueSignsFor | signer/eth.go:53-60 | the rows the quorum test counts belong to different validators if the table's do |
| Decimal.ItoaParse | converter/currency.go:18 | a numeral is written back as it was read exactly when it is not padded |
| Decimal.ItoaDigits | signer/eth.go:103 | the decimal digits of a number, the least significant one last |
| Hex.EncodeAt | cacher/eth.go:78 | every byte is written as two lower-case digits, the high half first, after 0x |
| Hex.DecodeIff | signer/eth.go:20 | a text decodes exactly when it is 0x or 0X and an even number of hexadecimal digits, and case does not matter |
| Hex.EncodeDecode | signer/eth.go:20 | decoding an id is undone by encoding exactly for canonical ids |
| Hex.EthIdOfHash | cacher/eth.go:78 | the id stored for a log decodes to the log's 32-byte hash |
| Messages.VoteBytes | signer/eth.go:102-106 | a vote for a request whose id decodes to 32 bytes is signed over these bytes: 0x19, the text of ERC-191, the digits 33, the hash, the byte 3 |
| Messages.WavesVoteText | signer/waves.go:13-15 | a vote for a Waves request is signed over its id followed by _3 |
| Messages.PreimageInjective | signer/eth.go:102-106 | no two messages share a signed preimage, although nothing separates length and message |
| Messages.EthSignatureBindsRequest | signer/eth.go:19-27 | two signed preimages are equal exactly when ids and statuses are |
| Messages.WavesMsgRoundTrip | signer/waves.go:13-15 | id and status can be read back from the signed text for every id and every status |
| Messages.WavesMsgInjective | signer/waves.go:13-15 | two signed texts are equal exactly when ids and statuses are |
| TokenPairs.PairsAgree | signer/signer.go:125-155 | both directions accept the same pairs, and each side of a pair fixes the other |
| TokenPairs.ReturnAcceptedIffCanonical | signer/signer.go:130-149 | the token of an asset accepted from Waves is accepted from Ethereum exactly when its address is stored canonically |
| TokenPairs.AcceptsIffListed | signer/signer.go:125-155 | a request is accepted exactly when the Ethereum table maps the address to the asset with status Success and the Waves state maps the asset to that spelling of the address with status Success |
| Node.HandleGetSign | server/server.go:25-65 | a node serves only a stored row of the asked request under its own oracle address for that request's chain |
| NodeInvariant.WriteKeeps | cacher/eth.go:96-124 | a cacher's write after a look-up keeps all table invariants even when other loops acted in between |
| NodeInvariant.SaveStale | signer/eth.go:96-97 | a whole-row save of a row read earlier changes the status and nothing else |
| NodeInvariant.SweepKeeps | cacher/waves.go:95 | a sweep removes no row and changes only statuses |
| NodeInvariant.SignKeeps | signer/signer.go:180-189 | signing or storing a reply keeps one row per request and validator |
| NodeInvariant.ApplyKeeps | signer/signer.go:71-94 | every database operation of every loop keeps the node invariant and loses nothing |
| NodeInvariant.SuccessLostIff | cacher/eth.go:99-104 | a finalized row loses Success exactly through a cacher's status write or a sweep that finds it old |
| NodeInvariant.RejectedIff | cacher/eth.go:99-126 | a stored row becomes Rejected exactly when a cacher copies that status over another one or a sweep of either cacher finds an Ethereum row at or past the timeout |
| NodeInvariant.WavesRejectedIff | cacher/waves.go:62-67 | a Waves row becomes Rejected exactly when the Waves cacher copies that status from the contract |
| NodeInvariant.OwnSweepRejectsIff | cacher/waves.go:95 | the sweep of a row's own cacher rejects it, once expired, if and only if it is an Ethereum row |
| NodeInvariant.WavesSweepRejectsIff | cacher/waves.go:95 | a Waves sweep rejects an Ethereum row still inside the Ethereum window exactly when the Waves height is at least its creation height plus the timeout |
| NodeInvariant.WavesSweepRejectsEarly | cacher/waves.go:95 | an instance: cached at Ethereum height 1010, 90 blocks left, rejected by a Waves sweep at height 2000 |
| NodeInvariant.ExpiredWavesRowStaysNew | cacher/waves.go:95 | an instance: a Waves row long past its timeout is New after its own cacher's sweep |
| NodeInvariant.ExtendsKeeps | signer/signer.go:71-94 | whatever acts with honest replies follow on a state that meets the invariant, it holds after them and nothing was lost |
| NodeInvariant.SuccessExplained | signer/eth.go:45-58 | in every history a Success goes back to a report of the chain or to a submission that passed the quorum test |
| NodeInvariant.HistoryKeeps | signer/signer.go:71-94 | the node invariant holds after every history of one node |
| NodeInvariant.EthPassLeavesWindow | cacher/eth.go:88-126 | after a completed Ethereum pass every Ethereum row still New lies strictly above the timeout and at or below the confirmation depth, measured at the height of that pass |
| Protocol.ServedRowOwned | server/server.go:42-57 | what a peer serves is its own row for the asked request |
| Protocol.NextKeeps | signer/signer.go:99-230 | each step of any node keeps the system invariant |
| Protocol.RunKeeps | signer/signer.go:71-94 | the system invariant holds after every interleaving, and no node ever loses a row or a signature |
| Protocol.HistoryIsRun | signer/signer.go:71-94 | in any interleaving, peers signing and serving meanwhile, each node's tables are what its own operations make of them |
| Protocol.SubmitIsLogged | signer/eth.go:58-89 | a submission in a node's own history is a submission of the run, with the rows that node counted at that time |
| Protocol.Provenance | signer/signer.go:216-224 | in every run each signature row anywhere is the row its validator stored for itself, with status Success and its own signature over this request |
| Protocol.Agreement | signer/signer.go:180-224 | in every run no table holds two rows of one validator for one request, and any two nodes hold the same row |
| Protocol.QuorumSafety | signer/eth.go:53-60 | in every run a submission is of a row read as New and has at least bftCoefficient different validators behind it, each of which cached the request itself, under the height it stored, at least at the configured depth and not past the timeout, and signed it under a view of the contracts that lists its token pair as active on both |
| Protocol.NothingIsLost | cacher/eth.go:99-124 | however a run continues no request row disappears, no field but the status differs from its value at insertion, and no signature changes |
| Protocol.WindowAfterEveryPass | cacher/eth.go:88-126 | the window holds after every Ethereum pass of every run at a height no lower than those before |
| EthSlots.LastBytesIsLast | signer/eth.go:67-77 | the kept signature is that of the last matching row that decodes |
| EthSlots.FillSlot | signer/eth.go:67-78 | one admin's slot is filled with the two 32-byte halves of the kept signature, other slots stay, and a short signature panics |
| EthSlots.FillSlots | signer/eth.go:62-79 | the three arrays hold every admin's slot at its index, each r and s of 32 bytes, or the code panics, exactly on a short signature |
| EthSlots.SlotRebuilds | signer/eth.go:74-76 | r and s have 32 bytes each, and r, s and v - 27 joined are the stored signature |
| EthSlots.QuorumSufficiency | signer/eth.go:58-79 | at least as many slots are filled as the quorum test counted rows |
| EthSlots.FilledIff | signer/eth.go:66-79 | which slots are non-zero for arbitrary rows |
| Submissions.SubmissionCarriesQuorum | signer/eth.go:53-89 | in every run an Ethereum submission carries at least bftCoefficient slots, each with r and s of 32 bytes that joined with v - 27 are the signature of the admin at that index over the bytes that VoteBytes spells out for this request, and no other filled slot |
| Submissions.WavesSubmissionCarriesQuorum | signer/waves.go:36-76 | in every run the list of a Waves submission splits into one field per admin, at least bftCoefficient of them that admin's signature over the id followed by _3 and the others the placeholder q |
| Submissions.HandedOverVotes | signer/eth.go:62-89 | of the slots a finalizing pass hands to the contract for a submission in its trace, at least bftCoefficient are the votes of the admins at those places |
| Submissions.HandedOverList | signer/waves.go:45-76 | the list a finalizing pass hands to the Waves contract for a submission in its trace splits into one field per admin, at least bftCoefficient of them votes and the others placeholders |
| Submissions.NeverPanics | signer/eth.go:69-76 | in no run does the Ethereum pass meet a short signature when all validators are registered |
| Submissions.StoredSelectionsAgree | signer/eth.go:66-76 | in every run, on every node and for every Ethereum request, the last decodable match among the Success rows is the first match among all rows |
| Submissions.SubmittedSelectionsAgree | signer/eth.go:66-76 | the same for the counted rows of every Ethereum submission |
| QuorumRuns.QuorumCanSubmit | signer/signer.go:71-94 | for any number of validators and any quorum up to it, on either chain: a request all accept can be cached, signed and served by each, pulled by any one of them and submitted with the signatures of all |
| WavesList.FindSign | signer/waves.go:51-57 | the first matching row's signature, or the placeholder |
| WavesList.SortSigns | signer/waves.go:45-60 | the list built is the fields joined in admin order |
| WavesList.ReadsBackIff | signer/waves.go:45-60 | splitting the list gives back its fields exactly when no field holds a comma and the first is not empty or is the only one |
| WavesList.ListReadsBack | signer/waves.go:45-60 | with comma-free non-empty signatures the list splits into one field per admin, in order, each that admin's signature or the placeholder |
| WavesList.SelectionsAgree | signer/waves.go:52-57 | for a request whose rows are decodable Success rows of validators with one key each, the Ethereum finalizer's last match and the Waves finalizer's first match are the same row, whatever else the table holds |
| EthPass.PassAt | cacher/eth.go:77-126 | what a pass, aborted or not, makes of each log it gets to that is deep enough: a cached row takes the chain's status, a missing one is added and shows every field of the request; then, unless a failed call aborted it, an Ethereum row at or past the timeout is rejected |
| EthPass.PassElsewhere | cacher/eth.go:77-126 | every other row only goes through the sweep, if the pass is not aborted, and no row appears without such a log |
| EthPass.PassTwice | cacher/eth.go:77-126 | a second pass over the same snapshot changes nothing, whether or not a call fails in it |
| WavesWalk.Settles | cacher/waves.go:48-94 | every walk, on cyclic chains too, reaches a state it never leaves within one iteration per uncached order and one more |
| WavesWalk.InsertsOnce | cacher/waves.go:58-93 | however long the walk runs it inserts no order twice, each inserted row shows its order, and only statuses of what was cached change |
| WavesWalk.EndsWithinIff | cacher/waves.go:48-94 | the walk ends within n iterations exactly when such a path, described next, has at most n orders |
| WavesWalk.EndsIffClearPath | cacher/waves.go:48-94 | the walk ends exactly when confirmed, unexpired, uncached and distinct orders lead from the newest order to an expired one |
| WavesWalk.EndedTable | cacher/waves.go:72-93 | a walk that ended has inserted exactly the orders before the expired one |
| WavesWalk.CachedOrderHolds | cacher/waves.go:58-70 | at a cached order in the window the walk copies the status once and never moves on |
| WavesWalk.UnconfirmedOrderHolds | cacher/waves.go:50-52 | at an order less deep than required the walk stays for ever and changes nothing |
| WavesWalk.MissingOrderPanics | cacher/waves.go:49 | at an order that the state has no entry for the program panics |
| Validator.Validator.SelectPending | signer/signer.go:101-104 | the New rows, each once, in any order |
| Validator.Validator.SignOne | signer/signer.go:105-190 | the node's own row is appended if WillSign gives one, which WillSignIff decides, and nothing else |
| Validator.Validator.SignRequest | signer/signer.go:99-192 | the pass appends that row for each New request that has one, and nothing else |
| Signing.WillSignIff | signer/signer.go:105-190 | a request is signed exactly when it is not signed yet, the Waves state was read, both contracts list its pair as active and the vote can be written; the row then holds the node's own vote over the exact bytes or text |
| Signing.EthRequestSignedIff | cacher/eth.go:109-121 | a request cached from Ethereum is signed exactly when, besides, the token it names on the chain is listed with an asset |
| Signing.WavesRequestSignedIff | cacher/waves.go:75-87 | a request cached from Waves is signed exactly when, besides, the asset it names in the state is listed with an address |
| Signing.EarlierRowsDoNotMatter | signer/signer.go:105-118 | whether a request is signed does not depend on the ones signed before it in the pass |
| Signing.SigningKeepsUnique | signer/signer.go:113-118 | a signing pass never creates a second row of a validator for a request |
| Validator.Validator.PullOne | signer/signer.go:203-225 | a reply is stored exactly when it is a row of a validator not yet held for the request |
| Validator.Validator.GetSigns | signer/signer.go:194-230 | the pass asks every peer for every New request and stores the replies in that manner |
| Signing.PullAllAdds | signer/signer.go:200-227 | with honest peers pulling adds only replies, ends with a row of every validator that answered, and keeps rows unique |
| Validator.Validator.ServeSign | server/server.go:25-65 | a node answers exactly for the requests it has cached and signed, each time with the row stored under its own address for that request's chain, of which there is one if rows are unique |
| Validator.Validator.FinalizeEthOne | signer/eth.go:36-97 | one row: promoted, submitted with the slots of its counted rows, or panicked at, as RowLaw says |
| Validator.Validator.FinalizeEthRequest | signer/eth.go:29-100 | the pass goes through the pending Ethereum rows in some order and panics if and only if one of them makes it, at the first such row. Each row before that is promoted if the chain reports Success; otherwise it is submitted exactly when its id decodes and the node holds at least bftCoefficient Success rows for it, and then promoted exactly if that was sent. All others stay. Each submission stands in the trace with the quorum behind it |
| Validator.Validator.FinalizeWavesOne | signer/waves.go:28-98 | the same for one Waves row, with the joined list |
| Validator.Validator.FinalizeWavesRequest | signer/waves.go:17-101 | the same for the pending Waves rows, where rows of any status count; the pass does not finish if and only if the state is not read, a row has no entry in it, or a submission is not confirmed; a row it gives up at has been submitted but not promoted |
| Finalizing.RowLaw | signer/eth.go:36-97 | a pending row is due exactly when the node may submit it and the chain does not report Success; what the passes do with it, and whether they stop at it, is what the conditions of the code say |
| Finalizing.PassLaw | signer/eth.go:29-100 | a pass that ended treated every row before the one it stopped at by these conditions, in both directions, and stopped at the first row that makes it |
| QuorumTurn.SubmitOnEthereum | signer/signer.go:71-94 | however many validators, for every quorum up to that number: when each has cached, signed and answered for an Ethereum request, and the chain reports New and takes submissions, the finalizing pass of any one of them, after pulling, returns exactly its submission and leaves it Success, unless a counted signature is short, at which it panics |
| QuorumTurn.SubmitOnWaves | signer/signer.go:71-94 | the same on Waves, without exception |
| Validator.Validator.SignerRound | signer/signer.go:71-94 | a turn of the signer's loop keeps the node invariant and loses nothing; after it every New request the node accepts and can sign has its signature and every reply is stored; it finishes exactly when no pending row stops either pass, and then exactly the rows that RowLaw has promoted are |
| Finalizing.WavesUndisturbed | signer/signer.go:82-90 | whether the Waves pass breaks off does not depend on what the Ethereum pass did before it |
| Validator.Validator.CacheEth | cacher/eth.go:96-124 | a missing row is added and shows amount, lower-cased owner, target, type, asset, target id, status and height of the request; a cached one takes the status and nothing else; no other row changes |
| Validator.Validator.HandleEthLogs | cacher/eth.go:57-128 | the pass leaves the table of EthPass.Pass, which PassAt and PassElsewhere determine, and fails exactly when a call failed before the loop ended; then it skips the sweep |
| Validator.Validator.CacheWaves | cacher/waves.go:58-90 | the same for an order of the Waves state, whose target is lower-cased |
| Validator.Validator.HandleWavesState | cacher/waves.go:36-97 | the loop goes through the states of WavesWalk.Iterate, ends within `fuel` iterations exactly when a clear path of at most `fuel` orders leads from the newest, and only then sweeps |
| Currency.ConvertStrAmount | converter/currency.go:5-19 | the numeral returned is the rounded, rescaled and truncated amount, without leading zeros |
| Currency.ConvertError | converter/currency.go:5-19 | for every amount and all decimals the result is within 2^-51 of the exact value, relatively, and at most one further unit below it |
| Currency.ConvertMonotone | converter/currency.go:5-19 | a larger amount never converts to less |
| Currency.RoundTrip | converter/currency.go:5-19 | to more decimals and back gives the amount or one unit less, for every amount below 2^51 |
| Currency.RoundTripGains | converter/currency.go:5-19 | 2305843009224277, which is 1.024 * 2^51, comes back from 28 to 31 decimals and back as one unit more |
| Currency.IdentityIffFloat | converter/currency.go:6-17 | at zero decimals the amount is returned exactly when it is a float |
| Rounding.RelativeError | converter/currency.go:6-7 | rounding errs by at most 2^-53 of the value |
| Rounding.RoundMonotone | converter/currency.go:6-7 | rounding is monotone |
| Rounding.RoundScaled | converter/currency.go:6-7 | rounding commutes with scaling by powers of two |
| Rounding.RoundIsNearest | converter/currency.go:6-7 | no 53-bit float is nearer than the rounded value, and ties go to the even mantissa |

## Left out

- Currency.RoundTrip: stated below 2^51, where four roundings stay under one unit; RoundTripGains shows that it fails at 1.024 * 2^51, and amounts in between are not decided.
- Currency.ConvertStrAmount: takes digit strings; signs, fractions, exponents and the other texts a big.Float parses are not modelled, nor the nil it yields for a malformed text.
- Validator.Validator.HandleWavesState: runs the first `fuel` iterations, for any `fuel`, because the loop may never end; missing `last_element` and mistyped entries are not modelled.
- Missing or mistyped Waves state entries of an asset, at which the signing pass panics (signer/signer.go:130-151): they are taken as present.
- Validator.Validator.FinalizeEthOne: ids that decode to other than 32 bytes, which the cacher never writes, are not padded or cut.
- Database failures: finding, inserting and updating rows always succeed; the signer's and cachers' early returns on database errors do not occur.
- The contract of the Ethereum side (contracts/eth.go): its answers are parameters, what it does with a submission is not modelled.
- Elliptic-curve signing and Keccak: a signature is an arbitrary function of the preimage, given per validator.
- Integer widths: heights are unbounded; only the int32 truncation of CreatedAt and the byte sum of v are modelled.
- Reading addresses from text and writing them (EIP-55): two arbitrary functions, of which the first undoes the second.
- Waves amounts (cacher/waves.go:72-74): the amount text is taken as given.
- HTTP, JSON, RPC, transaction building, polling, sleeps and start-up (main.go, wavesapi): the replies they deliver are parameters.
- Misbehaving peers: a reply is always one that HandleGetSign gave.
