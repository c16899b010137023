# Verified model of the wallet library's core

A Dafny model of the self-contained logic of a multi-chain threshold-signing wallet, with proofs of what that logic
promises. Each part of the library is one module (two where the theorems are long); parts do not depend on each other,
only on the small shared modules at the end.

- `CoinSelection`, `BitfiSpend`: choosing coins, fee and change. Greedy selection is optimal for one script class by an
  exchange argument; for mixed classes the exact condition under which nothing is missed is proved.
- `Ledger`, `Sweep`, `SweepTheorems`, `SweepRounds`: Bitcoin history rows as a ledger over whole chains, the paged
  sweeps that fill the store, and any number of them while the history grows.
- `LocalHub`, `HubHandlers`, `Shutdown`, `Transfer`, `TransferTrace`: the three concurrent protocols. Shared state is a
  class whose methods are the critical sections; a system steps one section or operation at a time, and the results
  hold for every sequence of actions, that is for every interleaving.
- `HdDerive`, `HdTrace`: BIP-32 public and private derivation, their tweaks, and the ed25519 scheme, over any group with
  the usual laws and any function in place of HMAC.
- `Bits`, `Bip39`: mnemonics over any 2048 distinct words and any hash.
- `TypeGraph`, `TypeText`, `TypedData`, `TypedWords`: EIP-712 type strings, struct hashing and digests over any type
  table, cyclic ones included.
- `Bbqr`, `AirgapDecoder`, `StrayFrames`, `BbqrLaws`: cutting, joining and frame-at-a-time reassembly of scanned
  payloads, and what a stray scan does to it.
- `MoneroBase58`, `FixedPoint`, `AmountCodec`, `DecimalText`, `Solana`, `SolanaMessages`, `SolanaPrograms`: codecs,
  rounding, signature slots, and what the messages built do when executed.
- `Wrappers`, `Radix`, `Text`, `Decimal`: options and results, digits in any base, string operations, numerals.

Where the source updates state or loops, the model has a method with its loop or a class with its fields, proved equal
to a specification function; the theorems are about those functions, and say what they mean without them: a reader of
the wire format, a trace of a derivation, a log of handler calls. Hashes, curves, deflate, the UR and BBQr header
codecs, hexadecimal satoshi parsing and num-bigint's digit parsing in typed data are parameters, with their laws as
preconditions where a proof needs them; concrete instances show that the laws of the curve and of the part codec can be
met. The node is a function from continue key to page.

## Where the code and its promises part

- A stray scan can poison a reassembly context, although a comment says it never does. A rejected first frame binds the
  context to its kind (`StrayFramePoisons`, `StrayFramePoisonsIff`); an accepted one whose body does not decode stops
  it from ever completing (`TornFrameIsKept`, `NeverCompletes`); one that comes after its slot's own part replaces it
  for good (`LateStrayLoses`). `StrayFrameIff` is the exact condition for any stray at any moment.
- A frame of a different payload is not always rejected: two files with the same part count, type and encoding mix
  (`TwoFilesJoin`); `OtherFileIff` says exactly when a part is refused.
- A transaction left unconfirmed by one sweep is not always found by a later one (`LateConfirmationIsMissed`), and a
  send the wallet recorded itself can hide the whole older history (`OwnSendHidesHistory`). `EvmSweepMissesIff` and
  `BitcoinSweepStoresVisited` say exactly what a sweep stores and misses, whatever the store holds.
- With coins of different script classes the selector can report insufficient funds although one coin covers
  (`MixedClassesCanBeMissed`); `GreedyCompleteIff` says exactly for which wallets and rates that cannot happen.
- A sweep that hits the page cap leaves a gap that sweeping again does not fill (`CapLeavesGap`, `EvmSweepCompleteIff`,
  `SecondSweepStoresNothing`).
- The row of a transaction strangers joined can understate what left the account (`JointRowUnderstates`); it is exact
  precisely under `JointRowExactIff`, and `LedgerWithGaps` accounts for the rest.
- A deflated payload longer than the inflate cap is cut without complaint and can never be joined (`OverlongFileIsLost`,
  `JoinOfParts`, `TooLongNeverCompletes`).
- A struct whose name holds a bracket is hashed as a field but missing from the type string
  (`BracketedNameIsUnlisted`); `HashedStructListedIff` says this is the only way it happens.
- Integers beyond 256 bits wrap silently, and a type's own width is not checked (`IntWordIff`, `UintWordIff`).
- Division rounds a dividend that loses decimals before it truncates (`RoundedDividend`); the quotient is exact
  precisely under `DivisionExactIff` and off by one otherwise.
- An unresolved MAX amount is written like zero (`BytesRoundTripIff`).
- Public derivation along an empty path returns its input without decoding it (`UndecodableParentIff`).

## Model

| member | source | states |
|---|---|---|
| `CoinSelection.SelectUtxos` | rust/src/bitcoin.rs:395-409 | selection succeeds exactly when some non-empty prefix of the coins sorted largest first pays the request and its own fee; it returns the shortest such prefix, and when sizes never fall as values rise no covering choice has fewer coins and a failure means none covers |
| `CoinSelection.InsertKeepsOrder` | rust/src/bitcoin.rs:397 | the stable descending sort permutes the coins and orders them |
| `CoinSelection.SortIsStable` | rust/src/bitcoin.rs:397 | coins of equal amount are tried in the order they were given |
| `CoinSelection.Exchange` | rust/src/bitcoin.rs:395-409 | exchange argument: along a descending list no choice of n coins beats the first n, for any measure |
| `CoinSelection.AlignedCoversByPrefix` | rust/src/bitcoin.rs:395-409 | any covering choice is matched by the sorted prefix of the same length |
| `CoinSelection.FewestCoins` | rust/src/bitcoin.rs:395-409 | the shortest covering prefix is a choice with the fewest coins |
| `CoinSelection.NothingCovers` | rust/src/bitcoin.rs:395-409 | when no prefix covers, no choice at all covers |
| `CoinSelection.OneClassIsOptimal` | rust/src/bitcoin.rs:378-409 | for coins of one script class selection succeeds exactly when some choice covers |
| `CoinSelection.NetAtMostGain` | rust/src/bitcoin.rs:378-409 | no choice nets more, after paying for its own bytes, than the coins worth more than they cost |
| `CoinSelection.PayingReachesGain` | rust/src/bitcoin.rs:378-409 | the coins that pay for themselves reach that bound |
| `CoinSelection.GreedyCompleteIff` | rust/src/bitcoin.rs:378-409 | mixed classes: selection finds coins for every request that some coins cover exactly when no request is coverable at all or, among the coins sorted largest first, none that costs more than it is worth comes before one that pays for itself |
| `CoinSelection.OrderlyIff` | rust/src/bitcoin.rs:378-409 | when the paying coins cover any request, that order is there exactly when some sorted prefix nets all that they bring |
| `CoinSelection.MixedClassesCanBeMissed` | rust/src/bitcoin.rs:378-409 | a two-class wallet on which selection fails although its smaller coin alone covers the request |
| `CoinSelection.PlanSend` | rust/src/bitcoin.rs:732-817 | recipient, change and miner fee add up to the inputs; change is above 546 or absent; the miner fee is the estimated fee, plus at most 546 when change is dropped |
| `CoinSelection.TwoOutputSizes` | rust/src/bitcoin.rs:377-391 | the virtual size of spending one coin of each script class to two outputs, in numbers |
| `BitfiSpend.SpendsIff` | rust/src/bitfi.rs:279-336 | 64-bit checked and saturating arithmetic accepts a spend exactly when unbounded integers would: the inputs fit 64 bits, cover amount and true fee, and the amount is above dust |
| `BitfiSpend.SpendConserves` | rust/src/bitfi.rs:309-356 | amount, fee and change account for every input, nothing unrelayable is made, and the fee exceeds the true one by at most the dust of a dropped change |
| `BitfiSpend.SpendRefused` | rust/src/bitfi.rs:309-336 | which reason a refused spend is given: nothing to spend, inputs beyond 64 bits, not covered, dust |
| `BitfiSpend.OrdinarySpends` | rust/src/bitfi.rs:279-356 | five spends in plain numbers: part of an input, all of it, a dropped change, a legacy input, and an amount below the dust of doge |
| `BitfiSpend.CheckedSumIs` | rust/src/bitfi.rs:312 | the checked sum is the sum when it fits 64 bits and an error otherwise |
| `Ledger.ScanOutputs` | rust/src/txhistory.rs:161-175 | received, sent and total of the outputs, and the first payee that is not ours |
| `Ledger.ScanInputs` | rust/src/txhistory.rs:180-196 | value of our inputs, and whether any, all, and all known inputs are ours |
| `Ledger.BuildBitcoinHistoryTx` | rust/src/txhistory.rs:150-229 | the row of one transaction as a function of its inputs and outputs, every branch included |
| `Ledger.RowIff` | rust/src/txhistory.rs:150-229 | there is a row exactly when the transaction is confirmed and spends or pays what is ours |
| `Ledger.IncomingRow` | rust/src/txhistory.rs:207-208 | coins that only came in: from nobody, to the account, all that was received, no fee |
| `Ledger.OutgoingRow` | rust/src/txhistory.rs:161-175 | coins that went out go to the first stranger paid, to ourselves only when there is none |
| `Ledger.OutgoingAmount` | rust/src/txhistory.rs:197-206 | amount and fee of coins that went out, in every case: with a prevout of ours unknown the amount is all that did not come back and no fee is said |
| `Ledger.OurValueRemove` | rust/src/txhistory.rs:150-229 | removing any unspent output lowers what we own by its worth, in whatever order the set is summed |
| `Ledger.SpendLowersByOurs` | rust/src/txhistory.rs:180-196 | spending lowers what we own by exactly the value the row builder counts as spent |
| `Ledger.CreateRaisesByReceived` | rust/src/txhistory.rs:161-175 | the new outputs raise what we own by exactly what it counts as received |
| `Ledger.RowMatchesChange` | rust/src/txhistory.rs:197-210 | one accepted transaction, a coinbase included: its row and its gap are the change in what we own |
| `Ledger.CoinbaseStartsChain` | rust/src/txhistory.rs:150-229 | a coinbase as the node reports it, one input without txid or vout, starts a chain from nothing, and its row is the balance |
| `Ledger.LedgerWithGaps` | rust/src/txhistory.rs:150-229 | over any accepted chain the rows add up to the change in what we own plus exactly the gaps of transactions strangers joined |
| `Ledger.LedgerBalances` | rust/src/txhistory.rs:150-229 | when every transaction spending our outputs has only our inputs, incoming minus outgoing and fees is the value of our unspent outputs |
| `Ledger.JointRowExactIff` | rust/src/txhistory.rs:197-206 | the row of an accepted transaction strangers joined equals the change in what we own exactly when we lost coins and spent no more than the outputs hold |
| `Ledger.JointRowUnderstates` | rust/src/txhistory.rs:197-206 | an accepted joint transaction that takes 10 from the account while its row says 5 |
| `Ledger.JointRowWithinLoss` | rust/src/txhistory.rs:198-206 | when strangers' inputs join and our prevouts are known, the amount never exceeds our net loss and no fee is claimed |
| `Sweep.BackfillEvm` | rust/src/txhistory.rs:20-54 | the EVM sweep appends what the recursive description of stop-at-known paging says, under the 40-page cap, and returns how many rows it stored |
| `Sweep.BackfillBitcoin` | rust/src/txhistory.rs:85-143 | the Bitcoin sweep over all addresses appends the rows of the transactions fetched, each once, and returns their number |
| `Sweep.FetchAddress` | rust/src/txhistory.rs:86-114 | one address adds to the fetched list what paging until a known transaction shows |
| `SweepTheorems.SweepVisits` | rust/src/txhistory.rs:25-52 | a sweep stores exactly the fresh entries of the pages up to the first that shows a stored one, within the cap |
| `SweepTheorems.EvmSweepMissesIff` | rust/src/txhistory.rs:20-54 | whatever the store holds, rows other code wrote included, a sweep is complete exactly when nothing fresh lies behind those pages |
| `SweepTheorems.OwnSendHidesHistory` | rust/src/txhistory.rs:31-37 | a wallet that stored its own send before the first sweep: the sweep stops at it and misses all older pages, however often it is repeated |
| `SweepTheorems.EvmSweepCompleteIff` | rust/src/txhistory.rs:20-54 | when everything behind a page showing a stored entry is stored, a sweep of a duplicate-free history is complete, once each and in order, exactly when the unknown part fits the page cap |
| `SweepTheorems.SecondSweepStoresNothing` | rust/src/txhistory.rs:20-54 | an immediate second sweep stores nothing, whatever the first one missed and whatever the store held |
| `SweepRounds.GrowthContinues` | rust/src/txhistory.rs:31-45 | histories that grow in front, with transactions confirmed since in front of what was stored, leave what the next sweep relies on |
| `SweepRounds.EveryRoundCompletes` | rust/src/txhistory.rs:20-54 | from an empty store, over any number of rounds of growth, confirmations and a sweep that fits the page cap, the store holds each storable transaction of the last history exactly once and nothing else |
| `SweepRounds.EveryAccountRoundCompletes` | rust/src/txhistory.rs:65-144 | the same for a Bitcoin account of any number of addresses, a transaction shown by several of them stored once, one unconfirmed in a round and confirmed later included |
| `SweepRounds.LateConfirmationIsMissed` | rust/src/txhistory.rs:63-114 | a transaction left unconfirmed by one sweep and confirmed behind a page with a stored row is not picked up by the next |
| `SweepRounds.CapLeavesGap` | rust/src/txhistory.rs:20-54 | for every page cap, a node whose history is one page longer: the sweep misses the last transaction, and sweeping again stores nothing |
| `SweepTheorems.BtcAddressFetches` | rust/src/txhistory.rs:86-114 | one address adds only unstored entries of the pages it visits, no repeats, and misses none of them |
| `SweepTheorems.BtcAddressComplete` | rust/src/txhistory.rs:86-114 | nothing fresh on the pages it visits is missed |
| `SweepTheorems.SettledVisits` | rust/src/txhistory.rs:86-114 | when everything behind a page showing a stored entry is stored, those pages show everything fresh within the cap |
| `SweepTheorems.BitcoinSweepStoresVisited` | rust/src/txhistory.rs:65-144 | whatever the store holds, an account sweep stores, once each, exactly the unstored transactions that a visited page of some address shows |
| `SweepTheorems.BitcoinSweepStores` | rust/src/txhistory.rs:65-144 | with settled histories an account sweep stores, once each, exactly the unstored transactions within the page cap of at least one address |
| `SweepTheorems.FetchedInOrder` | rust/src/txhistory.rs:85-114 | the account sweep fetches address by address, page by page, each new transaction where it is first shown |
| `SweepTheorems.RowsInOrder` | rust/src/txhistory.rs:116-143 | the rows are stored in the order of the transactions fetched |
| `SweepTheorems.SecondBitcoinSweepStoresNothing` | rust/src/txhistory.rs:65-144 | an immediate second account sweep stores nothing, whatever the first one missed |
| `LocalHub.HubCell.constructor` | rust/src/tss.rs:50-56 | a new hub has no handler and nothing buffered |
| `LocalHub.HubCell.DeliverInbound` | rust/src/tss.rs:71-81 | the critical section returns the handler and leaves the hub, or buffers the message and returns none |
| `LocalHub.HubCell.ConnectHandler` | rust/src/tss.rs:111-116 | the critical section installs the handler and takes the whole buffer of its type |
| `LocalHub.BroadcastReachesOthersOnce` | rust/src/tss.rs:96-102 | a broadcast's route names every other party once and the sender never |
| `LocalHub.StepKeeps` | rust/src/tss.rs:71-121 | every atomic step keeps each delivered letter in exactly one of: buffered, in a task's hands, handled |
| `LocalHub.EveryRunKeeps` | rust/src/tss.rs:71-121 | the same over every interleaving of any number of parties |
| `LocalHub.HandledTypesStayUnbuffered` | rust/src/tss.rs:71-121 | once a type has a handler it keeps one and its buffer stays empty in every continuation |
| `LocalHub.DeliveriesAreTheTasks` | rust/src/tss.rs:71-121 | in every run the deliveries of a letter to a hub are exactly the ones the tasks made, and each is handled, buffered or in hand |
| `LocalHub.NothingLostOrDuplicated` | rust/src/tss.rs:71-121 | when a type has its handler and no task still carries a letter, it was handled once per delivery to the hub |
| `LocalHub.AsksForIs` | rust/src/tss.rs:90-107 | a received broadcast asks for one delivery at every other party, a direct message for one at its addressee, a foreign one for one at the receiver |
| `LocalHub.EveryRequestIsHandledOnce` | rust/src/tss.rs:71-121 | end to end: when the sends of a message are through without refusal and no replay holds it, a party with a handler for its type has handled it exactly as often as the messages received so far asked for |
| `LocalHub.FinishedSendReachedItsRoute` | rust/src/tss.rs:90-107 | a finished error-free send was delivered along its route, each target counted by the hubs as an arrival; a broadcast, at every other party exactly once |
| `LocalHub.EveryScheduleRunsDown` | rust/src/tss.rs:71-121 | until the next message is received every schedule runs down: each step a task takes uses up one of two steps a delivery to come and one a letter delivered and not handled |
| `LocalHub.NeverStuck` | rust/src/tss.rs:71-121 | a task that is not done can always take a step |
| `LocalHub.EveryRequestCanBeHandled` | rust/src/tss.rs:71-121 | from every run in which no handler refused, the tasks can finish, and then every party with a handler for a type has handled each message exactly as often as the run asked for |
| `HubHandlers.HandlersAreLatest` | rust/src/tss.rs:111-116 | a hub's handler for a type is always the one connected last |
| `HubHandlers.EveryCallIsRight` | rust/src/tss.rs:71-121 | over every run each handler call is the right one: its own task delivered the message to that hub when the handler was the last one connected for the type, or the handler's connect took the message from the buffer |
| `HubHandlers.DeliversOnce` | rust/src/tss.rs:90-107 | no send delivers to a hub twice, so that delivery is the only one it can be |
| `HubHandlers.RefusalEndsSend` | rust/src/tss.rs:96-102 | once a handler refuses a message its sender delivers it to nobody else, whatever follows |
| `HubHandlers.CountsAreLogs` | rust/src/tss.rs:71-121 | the counted arrivals and handlings are exactly the deliveries and calls made |
| `HubHandlers.BufferIsInOrder` | rust/src/tss.rs:71-81 | until a handler is connected a hub holds all messages of the type in the order they arrived, and none afterwards |
| `HubHandlers.ReplaysInOrderOfArrival` | rust/src/tss.rs:111-120 | the first handler connected for a type is called with its buffered messages in that order |
| `Shutdown.Handle.constructor` | rust/src/handle.rs:36-48 | a new handle has no request in flight and its flag down |
| `Shutdown.Handle.BeginRequest` | rust/src/handle.rs:54-61 | a guard and a higher count, or neither once the flag is up |
| `Shutdown.Handle.EndRequest` | rust/src/handle.rs:64-70 | the count falls, and waiters are notified exactly at zero |
| `Shutdown.Handle.RaiseFlag` | rust/src/handle.rs:74-82 | the flag goes up under the same lock, with nothing to wait for exactly when the count is zero |
| `Shutdown.StepKeeps` | rust/src/handle.rs:54-94 | every step of a request or of destroy keeps the counter equal to the live guards and a sleeper with a guard left to wake it |
| `Shutdown.EveryRunKeeps` | rust/src/lib.rs:254-289 | the same over every interleaving of any number of requests, panics included |
| `Shutdown.NoGuardAfterFlag` | rust/src/handle.rs:54-83 | after the flag no worker comes alive and the count never grows |
| `Shutdown.NoGuardEverAfterFlag` | rust/src/handle.rs:54-83 | the same over any continuation |
| `Shutdown.NoCallbackAfterDestroy` | rust/src/lib.rs:254-289 | once destroy has returned no worker is live and no response or progress callback fires in any continuation |
| `Shutdown.LastCallbacks` | rust/src/lib.rs:265-287 | after the flag a worker fires at most one more callback, and only if it was already past its flag check |
| `Shutdown.EveryScheduleRunsDown` | rust/src/lib.rs:254-289 | after the flag every step a live worker takes uses up one of at most three a guard, in every schedule; when none is left the count is zero |
| `Shutdown.FinishingLowersCount` | rust/src/lib.rs:254-289 | any live worker can run to its end, and that lowers the count by one |
| `Shutdown.DestroyCanReturn` | rust/src/lib.rs:330-340 | from every state after the flag some continuation lets destroy return; the count ranks the wait |
| `Shutdown.EveryRequestIsAnsweredOnce` | rust/src/lib.rs:254-289 | without destroy and without panics outside the handler, the callbacks of a request are its progress updates and, once it is done, exactly one response |
| `Shutdown.OrdinaryRequest` | rust/src/lib.rs:254-289 | a request that runs alone is accepted, updates, answers and leaves the count at zero |
| `Transfer.Sessions.TransferRegister` | rust/src/env.rs:239-249 | a fresh unclaimed session is stored under the sid |
| `Transfer.Sessions.SwapClaimed` | rust/src/env.rs:274-276 | the atomic swap is won by the first query only |
| `Transfer.Sessions.TakeConfirmReceiver` | rust/src/env.rs:289 | the receiver is taken once |
| `Transfer.Sessions.TransferResolve` | rust/src/env.rs:253-259 | a known sid whose receiver is alive gets the answer in its channel; an unknown sid or a dropped receiver gives false; nothing else changes |
| `Transfer.StepKeeps` | rust/src/env.rs:239-297 | every step of a query or of the host keeps: a query past the claim owns its session, which shows how far it got |
| `Transfer.EveryRunKeeps` | rust/src/env.rs:239-297 | the same over every interleaving of queries, registrations, confirms and cancels |
| `Transfer.OneQueryPastTheClaim` | rust/src/env.rs:274-276 | at most one query is past the claim of a session |
| `Transfer.SingleUse` | rust/src/env.rs:264-297 | at most one pair event and one sealed payload per session; whoever caused them had presented the session's token, and what is sealed is what the host's first answer confirmed |
| `Transfer.WrongTokenNeverPairs` | rust/src/env.rs:277-282 | a query that presented another token, or one that does not decode, is behind no pair event and no payload of the session in any continuation |
| `Transfer.CancelIsFinal` | rust/src/env.rs:289-292 | once the first answer is a cancel nothing is ever sealed, whatever comes later |
| `TransferTrace.PayloadGoesWhereItBelongs` | rust/src/env.rs:239-297 | over every run a payload goes to a query for the sid its session was registered under, with that registration's token, and holds shares the host confirmed for that very sid |
| `TransferTrace.DoneSessionsAreGone` | rust/src/env.rs:289-297 | once a query is past waiting, by answer or time-out, its session cannot be found any more |
| `TransferTrace.WrongTokenBurns` | rust/src/env.rs:277-281 | a wrong token removes the session |
| `TransferTrace.HonestTransferSucceeds` | rust/src/env.rs:239-297 | registered, asked for with its token and confirmed, the shares are announced and sealed once |
| `TypeGraph.FindDeps` | rust/src/eip712.rs:86-98 | the search terminates on every type graph and leaves every type it adds closed under field references, adding only reachable ones |
| `TypeGraph.Dependencies` | rust/src/eip712.rs:76-77 | from an empty set the search computes exactly the reachable types |
| `TypeGraph.ListIsUnique` | rust/src/eip712.rs:80 | a set of names has only one sorted duplicate-free listing |
| `TypeGraph.InOrder` | rust/src/eip712.rs:80 | that listing is computed |
| `TypeGraph.ReferencesUnique` | rust/src/eip712.rs:74-84 | so the type string does not depend on how the set was built |
| `TypeGraph.ReferencesInTable` | rust/src/eip712.rs:80-82 | every type the encoder looks up is in the table |
| `TypeGraph.EncodeType` | rust/src/eip712.rs:74-84 | the type string is the primary type first, then every other reachable type exactly once in sorted order; it fails only for an unknown name |
| `TypeGraph.LessMeans` | rust/src/eip712.rs:80 | the order of the references is lexicographic |
| `TypeText.TypeStringReadsBack` | rust/src/eip712.rs:74-84 | for names without spaces, commas and parentheses the type string reads back as the primary type and then its references in order, each with its fields' types and names in order |
| `TypeText.FieldReadsBack` | rust/src/eip712.rs:166-169 | a field's text is its type, a space and its name |
| `TypedData.EncodeValueOf` | rust/src/eip712.rs:113-163 | encoding terminates for every type table and value and gives the recursive meaning, each success a word of 32 bytes, each failure the first one |
| `TypedData.HashStructOf` | rust/src/eip712.rs:59-66 | hashStruct is the hash of the type hash and the fields' words, or the first error |
| `TypedData.FieldWord` | rust/src/eip712.rs:100-111 | encodeData is 32 bytes a field, and word k is the encoding of field k |
| `TypedData.FirstFields` | rust/src/eip712.rs:100-111 | every prefix of the fields encodes to the prefix of the data |
| `TypedWords.StructWordIff` | rust/src/eip712.rs:59-66 | a struct's word is the hash of its type's hash and its fields' words, in the order the type lists them, exactly |
| `TypedWords.ArrayWordIff` | rust/src/eip712.rs:113-127 | an array's word is the hash of its elements' words in their order; a fixed length must be met |
| `TypedWords.ArrayFails` | rust/src/eip712.rs:113-127 | the first element that does not encode is the array's error |
| `TypedWords.LookupIs` | rust/src/eip712.rs:104 | a field reads the first member of its name, null when there is none |
| `TypedWords.SignableHash` | rust/src/eip712.rs:47-55 | the signed digest, or the first error |
| `TypedWords.DigestHolds` | rust/src/eip712.rs:47-55 | behind the digest are the bytes 25 and 1, the domain's struct hash and the message's, at their places |
| `TypedData.Int256RoundTripIff` | rust/src/eip712.rs:237-244 | signed words are two's complement: read back exactly within the 256-bit range and nowhere else |
| `TypedData.Uint256RoundTripIff` | rust/src/eip712.rs:231-234 | unsigned words are read back exactly below 2^256 |
| `TypedData.IntWordIff` | rust/src/eip712.rs:152-155 | an intN value always encodes, to a word that reads back exactly within the 256-bit range, whatever N is |
| `TypedData.UintWordIff` | rust/src/eip712.rs:145-151 | a uintN value is refused exactly when negative and wraps beyond 256 bits, whatever N is |
| `TypedWords.SignedText` | rust/src/eip712.rs:206-224 | a decimal text means its number, with a minus sign its negation |
| `TypedWords.SignedTextWord` | rust/src/eip712.rs:152-155 | and an intN value written so encodes to the word that reads back as it, whatever its sign |
| `TypedWords.HexNumber` | rust/src/eip712.rs:206-224 | the same in hexadecimal, with either prefix |
| `TypedWords.BoolWord` | rust/src/eip712.rs:140 | a truth value's word is one for true and zero for anything else |
| `TypedWords.StringWord` | rust/src/eip712.rs:135 | a text is hashed, anything else as the empty text |
| `TypedData.HexRoundTrip` | rust/src/eip712.rs:193-203 | bytes written in hexadecimal are read back |
| `TypedWords.BareHex` | rust/src/eip712.rs:193-203 | and without a prefix |
| `TypedWords.OddHex` | rust/src/eip712.rs:193-203 | with an odd number of digits the first stands alone |
| `TypedData.AddressWord` | rust/src/eip712.rs:141-144 | an address is right-aligned; longer bytes lose their front |
| `TypedData.FixedBytesWord` | rust/src/eip712.rs:156-160 | bytesN is left-aligned; longer bytes lose their end |
| `TypedData.BytesWord` | rust/src/eip712.rs:136-139 | dynamic bytes are hashed |
| `TypedData.DynamicArrayType` | rust/src/eip712.rs:179-190 | T[] peels to T with any length |
| `TypedData.FixedArrayType` | rust/src/eip712.rs:179-190 | T[n] peels to T with exactly n, whatever brackets T has |
| `TypedData.PeelingFindsBase` | rust/src/eip712.rs:171-190 | peeling array suffixes ends at the base type the search used |
| `TypedData.HashedStructListedIff` | rust/src/eip712.rs:86-133 | a struct hashed inside a field is a reference of the enclosing type exactly when its name has no bracket or is that type itself |
| `TypedData.BracketedNameIsUnlisted` | rust/src/eip712.rs:86-133 | a table with a bracket in a struct name: the hash of the outer struct holds the inner one's hash while its type string is its own alone |
| `HdDerive.StepsCommute` | rust/src/hdderive.rs:32-52 | one non-hardened step: public and private derivation fail for the same reason or reach the same node |
| `HdDerive.WalksCommute` | rust/src/hdderive.rs:178-204 | the same along every non-hardened path, with the same chain code, matching keys and child key = parent + tweak mod n |
| `HdDerive.AccountKeyMatches` | rust/src/hdderive.rs:136-145 | a wallet keeping only the public key at p derives along q the public key of the private key at p + q, failing exactly when and why the private derivation fails |
| `HdDerive.DerivePubTweak` | rust/src/hdderive.rs:242-267 | the loop computes the walk: the child key and the accumulated tweak as 32 bytes, or the first error |
| `HdDerive.DerivePrivKeyAndChainCode` | rust/src/hdderive.rs:136-145 | the private loop computes the walk from the HMAC master |
| `HdDerive.PubWalkLands` | rust/src/hdderive.rs:242-267 | along any path the accumulated total is the multiple of the generator between the two points |
| `HdDerive.UndecodableParentIff` | rust/src/hdderive.rs:242-256 | a parent of 33 bytes that is no point is accepted exactly on the empty path, where it comes back with a zero tweak |
| `HdDerive.TweakLands` | rust/src/hdderive.rs:238-267 | child = parent + tweak times the generator, and no other number below the order does that |
| `HdDerive.HardenedPathFails` | rust/src/hdderive.rs:33-35 | one hardened index anywhere makes public derivation fail |
| `HdDerive.DerivedKeyIsUsable` | rust/src/hdderive.rs:178-204 | every private key at the end of a non-empty path lies in [1, n) |
| `HdDerive.MacInputsDiffer` | rust/src/hdderive.rs:178-188 | under one chain code no two usable keys or indices hash the same bytes, hardened or not |
| `HdDerive.InputKeyIsRootPlusTweak` | rust/src/bitcoin.rs:660-664 | the combined tweak takes the wallet root to the input's own key for any account offset, negative ones included |
| `HdDerive.RemTwice` | rust/src/bitcoin.rs:662 | the doubled truncated remainder is the remainder in [0, n) |
| `HdDerive.Ed25519DerivePubTweak` | rust/src/hdderive.rs:344-373 | hardened indices are refused before anything else; then the walk's tweak and child, or its first error |
| `HdDerive.EdTweakLands` | rust/src/hdderive.rs:344-373 | the ed25519 child is the group key plus the tweak times the base point, never the identity on a non-empty path |
| `HdDerive.LawsCanBeMet` | rust/src/hdderive.rs:19-22 | the laws asked of the curve contradict nothing: the residues modulo its order meet them |
| `HdTrace.PubTweakIff` | rust/src/hdderive.rs:242-267 | public derivation gives a child and a tweak exactly when a trace does: at every node the left half of the MAC of chain code, key and big-endian index moves the point, the right half is the next chain code, and the tweak is the plain sum of the left halves modulo the order |
| `HdTrace.PubWalkStops` | rust/src/hdderive.rs:32-52 | a derivation that fails follows the path until an index that cannot be, and gives the first reason |
| `HdTrace.PrivWalkIff` | rust/src/hdderive.rs:136-204 | private derivation from a seed gives a node exactly when a trace from the two halves of the master MAC does |
| `HdTrace.PrivWalkStops` | rust/src/hdderive.rs:178-204 | and fails at the first index that cannot be followed, for the first reason |
| `HdTrace.KeyIsSum` | rust/src/hdderive.rs:195-202 | along a non-empty path the key is the root plus all the left halves, modulo the order |
| `HdTrace.EdTweakIff` | rust/src/hdderive.rs:305-373 | ed25519 derivation gives a tweak and a child exactly when no index is hardened and a trace from the group key's own chain code does |
| `Bip39.MnemonicToEntropy` | rust/src/bip39.rs:18-54 | the loops compute decoding: word count, unknown word and checksum errors included |
| `Bip39.EntropyToMnemonic` | rust/src/bip39.rs:60-86 | the loops compute encoding |
| `Bip39.PackBytes` | rust/src/bip39.rs:38-43 | or-ing bits into a zeroed array groups them by eight |
| `Bip39.PushBytes` | rust/src/bip39.rs:69-74 | shifting bytes out gives their bits, most significant first |
| `Bip39.PushBits` | rust/src/bip39.rs:33-35 | shifting a word index out gives its eleven bits |
| `Bip39.FoldBits` | rust/src/bip39.rs:78-82 | shifting a chunk in gives its value |
| `Bip39.DecodeOfEncode` | rust/src/bip39.rs:18-86 | exactly the five entropy sizes encode, and decoding the mnemonic gives the entropy back |
| `Bip39.EncodeOfDecode` | rust/src/bip39.rs:18-86 | an accepted mnemonic, whatever its spacing, re-encodes to its own words single-spaced |
| `Bip39.AcceptedIff` | rust/src/bip39.rs:18-86 | a text decodes to an entropy exactly when its words, single-spaced, are that entropy's mnemonic |
| `Bip39.MnemonicRefused` | rust/src/bip39.rs:18-54 | which reason a refused mnemonic is given: the number of words, an unlisted word, the checksum |
| `Bip39.EncodeIsItsWords` | rust/src/bip39.rs:60-86 | a mnemonic is the words at its word numbers |
| `Bip39.MnemonicNumber` | rust/src/bip39.rs:60-86 | the word numbers read in base 2048 are the entropy read in base 256, followed by the leading bits of its hash |
| `Bits.GroupOfExpand` | rust/src/bip39.rs:29-43 | grouping the bits of numbers gives the numbers back, at any width |
| `Bits.ExpandOfGroup` | rust/src/bip39.rs:67-82 | expanding grouped bits gives the bits back |
| `Text.SplitOfJoin` | rust/src/bip39.rs:19 | words joined by single spaces split into themselves |
| `Bbqr.BbqrParts` | rust/src/airgap/mod.rs:120-156 | the loop cuts the file, or its shorter deflated form, into numbered parts; an empty file makes one |
| `Bbqr.BbqrJoin` | rust/src/airgap/mod.rs:160-197 | filling the slot array computes the join, with the first error |
| `Bbqr.CutsIff` | rust/src/airgap/mod.rs:120-140 | cutting fails only when deflate does, the length leaves no room for a group, or more than 1295 parts are needed |
| `Bbqr.CutRefused` | rust/src/airgap/mod.rs:120-140 | which reason a refused cut is given |
| `Bbqr.PartsFit` | rust/src/airgap/mod.rs:134-148 | every part fits the length asked for |
| `Bbqr.PartsAreLargest` | rust/src/airgap/mod.rs:134-136 | and holds as many whole base32 groups as that length allows |
| `Bbqr.BodyIsShorter` | rust/src/airgap/mod.rs:123-131 | the deflated form is cut exactly when asked for and shorter |
| `Bbqr.FilledIs` | rust/src/airgap/mod.rs:165-187 | scanning parts of one file in any order with repeats fills exactly the slots scanned |
| `Bbqr.JoinOfParts` | rust/src/airgap/mod.rs:120-197 | every part scanned at least once, in any order with any repeats, joins to the file and its type, unless a deflated file exceeds the inflate cap, when joining fails |
| `Bbqr.JoinMisses` | rust/src/airgap/mod.rs:189-192 | joining too early names the first part not scanned |
| `Bbqr.PartRefused` | rust/src/airgap/mod.rs:165-187 | which reason a part is refused for: its header, another file, its body, its place |
| `BbqrLaws.LawsCanBeMet` | rust/src/airgap/mod.rs:115-197 | the laws asked of the part codec and of deflate contradict nothing: a textual codec with a run-length deflate that shortens some files meets them |
| `BbqrLaws.OverlongFileIsLost` | rust/src/airgap/mod.rs:115-197 | a file one byte over 4 MiB that deflates: it is cut without complaint, its parts join to an inflate error, and no scan of them ever completes |
| `BbqrLaws.TornFrameIsKept` | rust/src/airgap/decoder.rs:109-131 | a frame torn after its header is accepted by a new context, which then never completes |
| `BbqrLaws.LateStrayLoses` | rust/src/airgap/decoder.rs:122-131 | a part of another file, scanned after its counterpart, is accepted and the file can never be collected again |
| `BbqrLaws.TwoFilesJoin` | rust/src/airgap/decoder.rs:193-228 | two concrete files whose parts join without complaint into a third |
| `AirgapDecoder.Context.constructor` | rust/src/airgap/decoder.rs:89-91 | a new context has no kind and no frames |
| `AirgapDecoder.Context.Feed` | rust/src/airgap/decoder.rs:96-134 | the new state and the answer of feeding one frame, every rejection included |
| `AirgapDecoder.Context.DecodeInner` | rust/src/airgap/decoder.rs:151-242 | decoding stored frames and a candidate, by kind, without storing it |
| `AirgapDecoder.DecodeBbqr` | rust/src/airgap/decoder.rs:193-228 | the loop over headers computes progress and, when every part is there, the file |
| `AirgapDecoder.DecodeAll` | rust/src/airgap/decoder.rs:256-264 | feeding a list of frames stops at the first error |
| `AirgapDecoder.FeedKeeps` | rust/src/airgap/decoder.rs:96-134 | a rejected frame leaves the stored frames alone; an accepted one is stored last unless already there; frames stay distinct and decodable |
| `AirgapDecoder.FrameRefused` | rust/src/airgap/decoder.rs:96-121 | which reason a frame is refused for before anything is decoded |
| `AirgapDecoder.RunsKeep` | rust/src/airgap/decoder.rs:96-134 | the same over every run of feeds |
| `AirgapDecoder.PercentNeverLowers` | rust/src/airgap/decoder.rs:193-253 | whatever BBQr or raw frame is accepted, received and percent never fall and complete is never taken back |
| `AirgapDecoder.PercentMeans` | rust/src/airgap/decoder.rs:245-253 | 100 exactly when complete, otherwise the hundredths received rounded down |
| `AirgapDecoder.ClassifyMeans` | rust/src/airgap/decoder.rs:31-40 | which frames are URs, BBQr parts and raw texts, character by character |
| `AirgapDecoder.RawShowsAtOnce` | rust/src/airgap/decoder.rs:117-131 | a raw text is shown at once, trimmed; the same again changes nothing and another is refused |
| `AirgapDecoder.UrProgressMeans` | rust/src/airgap/decoder.rs:164-191 | a UR's progress is what the fountain decoder recovered of its fragments, one of one for a single part |
| `AirgapDecoder.SameUrTwice` | rust/src/airgap/decoder.rs:123-124 | a UR frame that differs from a stored one only in case is a duplicate |
| `AirgapDecoder.CollectsFile` | rust/src/airgap/decoder.rs:96-228 | feeding one file's frames in any order with repeats: all accepted, stored once, counted once, payload exactly when every part has been seen |
| `AirgapDecoder.FeedPart` | rust/src/airgap/decoder.rs:122-131 | a part is refused only when it completes a file too long to inflate |
| `AirgapDecoder.TooLongNeverCompletes` | rust/src/airgap/decoder.rs:122-131 | a deflated file beyond the inflate cap never completes: some part is always missing |
| `AirgapDecoder.StrayFramePoisonsIff` | rust/src/airgap/decoder.rs:96-121 | after a rejected first frame, a frame a new context would accept is accepted exactly when it has the rejected one's kind |
| `StrayFrames.StrayFrameIff` | rust/src/airgap/decoder.rs:96-134 | whatever frame strays into the collection of a file, and whenever, the file can still be collected exactly when the stray is harmless: it does not bind a new context to another kind, and was rejected, or shows the whole file itself, or fits a slot whose own part is still to come, or agrees with the part that came |
| `StrayFrames.StrayThenFileIff` | rust/src/airgap/decoder.rs:96-134 | the same for every file the library cuts |
| `StrayFrames.FirstStrayIff` | rust/src/airgap/decoder.rs:96-134 | for a stray that comes first: exactly when it is a BBQr frame that was rejected, shows the whole file, or fits a slot and decodes |
| `StrayFrames.HarmlessCollects` | rust/src/airgap/decoder.rs:96-134 | after a harmless stray two passes over the parts, each in any order with repeats, always show the file |
| `StrayFrames.HarmfulNever` | rust/src/airgap/decoder.rs:96-134 | after a harmful one no scan of the parts, however long, ever does |
| `StrayFrames.LateStrayIff` | rust/src/airgap/mod.rs:160-197 | in a file that is not deflated, a stray stored after its slot's own part agrees with it only when it holds the same bytes |
| `StrayFrames.SeveralStraysIff` | rust/src/airgap/decoder.rs:96-228 | any number of accepted strays as long as the parts, in a file that is not deflated: the file can be collected exactly when every stored part still holds its slot |
| `StrayFrames.OwnedCollects` | rust/src/airgap/decoder.rs:96-228 | and then one pass over the parts shows it |
| `StrayFrames.NeverCompletes` | rust/src/airgap/decoder.rs:193-228 | a context that stored a frame whose body does not decode, or whose index is beyond its count, never completes, whatever is fed to it |
| `StrayFrames.UndecodableIsKept` | rust/src/airgap/decoder.rs:109-131 | a new context accepts and keeps such a frame of two or more parts on its header alone |
| `StrayFrames.OtherFileIff` | rust/src/airgap/decoder.rs:193-205 | a part of another file is refused as such exactly when its count, type or encoding differs |
| `StrayFrames.TwoFilesMix` | rust/src/airgap/decoder.rs:193-228 | otherwise parts of two files of two parts complete into the first part of the one and the second of the other |
| `AirgapDecoder.StrayFramePoisons` | rust/src/airgap/decoder.rs:96-121 | a damaged BBQr header, then a good raw key: the key is refused |
| `MoneroBase58.MoneroEncode` | rust/src/bitfi.rs:202-216 | the chunk loop computes the block-wise encoding |
| `MoneroBase58.WriteDigits` | rust/src/bitfi.rs:209-212 | digits written from the back while dividing are the value's fixed-width digits, and the value ends at zero |
| `MoneroBase58.FoldBytes` | rust/src/bitfi.rs:207 | the shifts fold a block to its value below 256 to its length |
| `MoneroBase58.LengthSuffices` | rust/src/bitfi.rs:204 | 256^n is at most 58 to the encoded length, for every block size |
| `MoneroBase58.RoundTrip` | rust/src/bitfi.rs:202-216 | a block-wise decoder inverts the encoding on every byte string |
| `MoneroBase58.Injective` | rust/src/bitfi.rs:202-216 | two byte strings of any lengths share an encoding only when equal |
| `MoneroBase58.EncodedLengthIs` | rust/src/bitfi.rs:202-216 | the text length is eleven a full block plus the rest's, which determines the last block's size |
| `MoneroBase58.BlockWrites` | rust/src/bitfi.rs:202-216 | a block's text writes in base 58 the number its bytes write in base 256, both from the highest place on |
| `MoneroBase58.BlocksInOrder` | rust/src/bitfi.rs:202-216 | the texts of the blocks follow one another in order, and nothing follows the last |
| `FixedPoint.Amount.SetExp` | rust/src/amount.rs:195-216 | rescaling in place gives the rescaled significand at the new exponent |
| `FixedPoint.Amount.Add` | rust/src/amount.rs:225-230 | the sum of both operands rescaled, which stay unchanged |
| `FixedPoint.Amount.Sub` | rust/src/amount.rs:232-237 | the difference of both operands rescaled |
| `FixedPoint.Amount.Mul` | rust/src/amount.rs:240-245 | the product rescaled to the receiver's exponent |
| `FixedPoint.Amount.Div` | rust/src/amount.rs:248-253 | the truncated quotient of the rescaled dividend |
| `FixedPoint.RoundDivIff` | rust/src/amount.rs:206-213 | the rounding is the only multiple within half a unit, ties away from zero |
| `FixedPoint.RoundIsOdd` | rust/src/amount.rs:209-213 | changing the sign before or after rounding is the same |
| `FixedPoint.RoundIsMonotone` | rust/src/amount.rs:206-213 | rounding keeps order |
| `FixedPoint.RescaledIs` | rust/src/amount.rs:195-216 | more decimals are exact; fewer are the nearest, ties away from zero |
| `FixedPoint.RescaledIsMonotone` | rust/src/amount.rs:195-216 | rescaling keeps order |
| `FixedPoint.UpThenDown` | rust/src/amount.rs:195-216 | scaling up and back down is the identity |
| `FixedPoint.SumIs` | rust/src/amount.rs:225-237 | sums are exact when no operand loses decimals; a difference is the sum with the negation |
| `FixedPoint.SumIsWithinUnit` | rust/src/amount.rs:225-230 | at one exponent a rounded sum is within a whole unit |
| `FixedPoint.ProductIsNearest` | rust/src/amount.rs:240-245 | a product is within half a unit of the exact one, and exact when it keeps its decimals |
| `FixedPoint.QuotientIs` | rust/src/amount.rs:248-253 | a quotient is the rescaled dividend cut toward zero, and the dividend is exact when it gains decimals |
| `FixedPoint.RoundedQuotientIff` | rust/src/amount.rs:248-253 | dividing a rounded dividend gives the truncated exact quotient precisely when the dividend is not within half a unit below a multiple of the divisor, and otherwise one farther from zero |
| `FixedPoint.DivisionExactIff` | rust/src/amount.rs:248-253 | division at any exponents: exact truncation when the dividend loses no decimals; when it does, the exact condition, and off by one away from zero otherwise |
| `FixedPoint.RoundedDividend` | rust/src/amount.rs:248-253 | 0.5 over 1 at no decimals gives 1: the dividend is rounded before the division truncates |
| `AmountCodec.PutVarint` | rust/src/amount.rs:445-452 | the loop writes the seven-bit groups of the zigzag number |
| `AmountCodec.ReadVarint` | rust/src/amount.rs:455-474 | the loop reads them, never shifting by 64 or more, and refuses overlong input |
| `AmountCodec.ReadOfVarint` | rust/src/amount.rs:445-474 | a varint read back before any bytes gives its number and its own length, in at most ten bytes |
| `AmountCodec.ReadOfPut` | rust/src/amount.rs:445-474 | the same for every signed 64-bit exponent through zigzag |
| `AmountCodec.Encode` | rust/src/amount.rs:295-316 | the binary form by sign |
| `AmountCodec.Decode` | rust/src/amount.rs:318-341 | its reader, with each error |
| `AmountCodec.BytesRoundTripIff` | rust/src/amount.rs:295-341 | an amount of either sign survives exactly when resolved; an unresolved MAX comes back as zero |
| `AmountCodec.BytesRefused` | rust/src/amount.rs:318-341 | which reason refused bytes are given: length, version, exponent, sign byte |
| `AmountCodec.BytesMean` | rust/src/amount.rs:318-341 | what accepted bytes mean; version 1 negates on a sign byte of one and on no other |
| `AmountCodec.ZigZagIs` | rust/src/amount.rs:445-452 | non-negative exponents are the even numbers, negative ones the odd |
| `AmountCodec.BytesSay` | rust/src/amount.rs:295-316 | what the bytes are: version, exponent in seven-bit groups, sign byte, magnitude from its highest byte on |
| `DecimalText.ParseBtcAmount` | rust/src/bitcoin.rs:78-106 | the parser's result, errors included |
| `DecimalText.ScaleUp` | rust/src/bitcoin.rs:98-103 | checked scaling loses nothing and fails exactly on 64-bit overflow |
| `DecimalText.WholeRefused` | rust/src/bitcoin.rs:78-106 | which reason a refused amount without a point is given |
| `DecimalText.PointedRefused` | rust/src/bitcoin.rs:78-106 | and one with a point: decimals, digits, overflow |
| `DecimalText.SatoshiRoundTrip` | rust/src/bitfi.rs:271-276 | every 64-bit satoshi amount survives being shown in coins and parsed back |
| `DecimalText.FormatShape` | rust/src/bitfi.rs:271-276 | a shown amount is whole units and what is left of them, with no idle zero at either end |
| `DecimalText.DroppedZeros` | rust/src/bitfi.rs:273-275 | dropping trailing zeros divides by their power of ten |
| `DecimalText.DisplayDigits` | rust/src/amount.rs:256-278 | the digits shown write the significand, exactly exp of them after the point |
| `DecimalText.AmountTextRoundTripIff` | rust/src/amount.rs:109-278 | an amount of exponent 0 or more survives its text, significand and exponent, exactly when the text fits 128 characters |
| `DecimalText.TextRefused` | rust/src/amount.rs:109-150 | which reason a refused amount text is given: length, exponent, digits |
| `DecimalText.ScientificMeans` | rust/src/amount.rs:113-150 | an exponent moves the point by as many places; where it would pass the last digit, zeros are appended |
| `Solana.Shortvec` | rust/src/solana.rs:10-22 | the loop writes the seven-bit groups |
| `Solana.PushCompactU16` | rust/src/solana_spl.rs:49-60 | the unrolled writer writes the same bytes for every 16-bit number |
| `Solana.ReadCompactU16` | rust/src/solana.rs:26-45 | the loop reads at most three groups |
| `Solana.CompactOfVarint` | rust/src/solana.rs:10-45 | a written length reads back, before any bytes, exactly when it fits 16 bits |
| `Solana.FindSignerSlot` | rust/src/solana.rs:50-74 | the scan finds the first listing of a key, when it is a signer's |
| `Solana.FirstKeyIs` | rust/src/solana.rs:68-73 | a slot is the first place a key is listed and no later one |
| `Solana.PayloadIsSignableTx` | rust/src/solana.rs:92-102 | a payload is signable when it, or the message behind its signatures, names the key as a signer |
| `Solana.TxSigLayout` | rust/src/solana.rs:107-117 | first signature and message offsets, when there is a signature and room for all |
| `Solana.SpliceSignatureAt` | rust/src/solana.rs:132-141 | the copied buffer is the old one with 64 bytes replaced |
| `Solana.TxSignerSlot` | rust/src/solana.rs:148-156 | the slot of a key, when the header agrees with the signature count |
| `Solana.SpliceIff` | rust/src/solana.rs:132-141 | a slot can be spliced exactly when the transaction has that many signatures |
| `Solana.SlotCanBeSpliced` | rust/src/solana.rs:132-156 | any slot found for a key can be spliced |
| `Solana.SpliceKeeps` | rust/src/solana.rs:132-156 | splicing writes its own 64 bytes and keeps every other byte, the layout, the message and every key's slot |
| `Solana.SplicesCommute` | rust/src/solana.rs:132-141 | signatures of different slots can be spliced in either order |
| `Solana.SpliceAgain` | rust/src/solana.rs:132-141 | a second splice into a slot replaces the first |
| `SolanaMessages.KeysOfSerialized` | rust/src/solana.rs:50-74 | the reader finds a serialized message's own keys |
| `SolanaMessages.KeysOfPrefixed` | rust/src/solana.rs:50-74 | the same behind a version byte, whatever follows the message |
| `SolanaMessages.SlotOfSerialized` | rust/src/solana.rs:50-74 | the slot found in any serialized message is where the key is first listed, when a signer's |
| `SolanaMessages.SlotOfPrefixed` | rust/src/solana.rs:50-74 | and in any versioned message, its lookup tables behind it |
| `SolanaMessages.SignersAreRecognised` | rust/src/solana.rs:88-156 | any legacy or versioned message is recognised for each of its signers, bare and behind its signatures, at that signer's slot |
| `SolanaMessages.AssembleTx` | rust/src/solana.rs:232-238 | one signature in front of a message |
| `SolanaMessages.ExtractAssembled` | rust/src/solana.rs:78-122 | a 64-byte signature in front is stripped again |
| `SolanaMessages.BuildTransferMessage` | rust/src/solana.rs:186-218 | the pushed bytes are the wire format of the transfer message |
| `SolanaMessages.TransferIsInjective` | rust/src/solana.rs:186-218 | two transfers with the same bytes are the same transfer |
| `SolanaMessages.BuildSplTransferMessage` | rust/src/solana_spl.rs:127-235 | the pushed bytes are the wire format of the SPL message, with and without compute-budget instructions |
| `SolanaMessages.TransfersInBounds` | rust/src/solana_spl.rs:146-233 | every account and program index names a listed key, and the read-only tail starts after the signers |
| `SolanaMessages.TransfersAreRecognised` | rust/src/solana.rs:88-102 | every SOL or SPL message built, bare or signed, is recognised for its sender, whose slot is 0 |
| `SolanaMessages.OnlySenderHasSlot` | rust/src/solana.rs:50-74 | and for nobody else |
| `SolanaPrograms.MessageReadsBack` | rust/src/solana.rs:186-218 | a reader of the message format that knows no builder reads back every message written, to the last byte |
| `SolanaPrograms.TransferPays` | rust/src/solana.rs:186-218 | the bytes of a SOL transfer, executed, take the lamports from the signing sender and give them to the recipient, at the blockhash given, and do nothing else |
| `SolanaPrograms.SplTransferPays` | rust/src/solana_spl.rs:127-235 | the bytes of an SPL transfer, executed, set the budget asked for, open the recipient's token account at the sender's cost, and move the amount from the sender's to it under the sender's authority, and do nothing else |
| `Radix.ToBe32Value` | rust/src/hdderive.rs:225-230 | numbers below 256^32 are written in full in 32 bytes |
| `Radix.ValueOfFixed` | rust/src/bitfi.rs:209-212 | fixed-width digits of a number that fits write that number |
| `Radix.FixedOfValue` | rust/src/bip39.rs:33-35 | digits are recovered from the number they write |
| `Radix.ValueIsPlaces` | rust/src/bip39.rs:33-35 | a number is its digits weighted by place, the first one most |
| `Radix.VarintMeans` | rust/src/amount.rs:445-452 | seven bits a byte, the lowest first, every byte but the last marked |

## Left out

- u64 overflow in the sums of coin selection and history rows: totals and fee rates are unbounded there; the `bitfi`
  spend is modelled with its 64-bit arithmetic, except that its size estimate is taken not to overflow.
- Failing RPC calls: a sweep that errors midway; lower-casing of transaction ids, address normalisation and the key
  extraction from scripts (an input carries the address its key encodes to).
- Building and signing the transaction after fee and change are known; coin family, network and address checks.
- The event callback, the WalletConnect reader and synchronous refusals in the shutdown model: it covers request
  workers. That a callback's own code returns is taken for granted.
- LocalHub.NothingLostOrDuplicated: what a handler does with a message, and its error, end at the call; a panic on an
  addressee that does not exist stops only that send.
- Transfer.SingleUse: sids are compared as registered; registering a sid again replaces the table entry and leaves the
  old session to whoever holds it. Sealing and payload building can only succeed or fail.
- Curve, HMAC, hash, deflate and base64 internals; the EIP-55, Tron and SLIP-0010 functions; parsing of path strings.
- SweepRounds.EveryAccountRoundCompletes: the store starts empty and only the sweeps write to it; a history never loses
  what could be stored, so reorganised histories are not covered.
- StrayFrames.SeveralStraysIff: several strays in a deflated file, where a garbled stream may or may not inflate and a
  refused part has to be scanned again; a single one is covered by `StrayFrameIff`.
- The UR fountain decoder: its state after a list of frames is a parameter, so nothing is claimed of its progress; the
  JSON views of a payload and the persistence of contexts.
- Non-ASCII text: trimming, splitting, case and slicing are modelled on ASCII; underscores in num-bigint's digits.
- PBKDF2 and Unicode normalisation of mnemonics; the English word list itself.
- FixedPoint.RescaledIs: exponents that differ by 2^32 or more, where the source's cast to 32 bits wraps (the cast is
  modelled, the law is stated below it); overflow of 64-bit exponents; operands aliasing the receiver, which Rust
  forbids.
- Conversion to and from floating point and JSON; unresolved MAX and negative exponents in the text round trip.
- SolanaMessages.AssembleTx: takes a signature of any length, as the source does; recognition is stated for 64 bytes.
- Associated token addresses, fee extensions and the base58 program ids (parameters of the SPL message).
- Easy parts: response envelopes, lookups, catalogs, CRUD handlers, percent-encoding.
