# A verified model of the three-person vault

This project models the deterministic core of a Bitcoin vault for three people
and proves what that core is for. Each module follows one part of the program:

- **MuSig2 signing** (`PrimeGroup`, `MuSig2`, `MuSig2Formulas`, `MuSig2Proofs`,
  `MuSig2Loops`, `KeyOrder`, `Ceremony`). Points form an abstract group with a generator of
  order `n` and a parity that negation flips; the laws are a predicate on a
  group value, so every theorem quantifies over all such groups, and
  `ResiduesAreAGroup` shows there is one. Hashes are uninterpreted functions.
  The 32 x-bytes of a point are represented by its even lift. The accumulator
  loops are methods proved against the functions the algebra is about. The
  standards are BIP-327 ("Key Aggregation", "Tweaking the Aggregate Public
  Key", "Partial Signature Verification", "Partial Signature Aggregation") and
  BIP-340 ("Verification").
- **The Taproot script path** (`Tapscript`, `RecoveryLeaf`, `LeafRefinement`,
  `RecoveryWitness`, `TapTree`, `ScriptPath`). `Tapscript` is a stack machine
  written from BIP-342 "Rules for signature opcodes", BIP-112 and BIP-68; the
  vault's pattern-matching verifier is proved to refine it, the leaf builder
  and the witness assemblers are proved to satisfy both, and the Merkle fold
  of BIP-341 is proved to commit to exactly the vault's leaves.
- **The withdrawal game** (`SoloPolicies`, `RosterClaims`, `VaultGame`,
  `Funding`, `VaultLedger`, `LedgerEntries`, `LedgerRuns`). Coins move from the
  three-person vault to a pair vault to a last payout. Besides the transactions the program builds,
  the model has adversarial spends: any value-conserving transaction a solo
  policy accepts. The ledger is modelled with every record it accepts, builders'
  or not.
- **Canonical forms and codecs** (`Json`, `JsonProofs`, `CompiledPolicy`,
  `PolicyCompiler`, `CompiledExactly`, `WitnessCodec`, `Base58Check`). The
  checker of compiled policies is modelled as written; `PolicyCompiler` states
  on its own what a compiler may do to a request, and `CompiledExactly` proves
  that the checker accepts that and nothing else.
- **Protocols** (`SdkLock`, `ListedKeys`, `Provisioning`): the promise-queue
  lock, the `listKeys` enumeration with what it delivers, and the staged
  provisioning of nine keys, as transition systems over all interleavings.
- **Shared** (`Wrappers`, `Sets`, `Sorting`): `Option`, a fact about finite
  sets, and a stable sort that is determined by its contents.

## Where the code differs from what it is expected to do

- `keyAgg` fails when the sum of a proper prefix of the weighted keys is
  infinity; BIP-327 fails only when the whole sum is. The model follows the code.
- The recovery verifier accepts four things consensus rejects: a negative
  delay, an undefined hash type, a leaf without keys, and a leaf of 1000 keys
  or more. `LeafRefinement.RecoveryAcceptedByConsensus` and `RecoveryIffConsensus`
  show there is nothing else, and three lemmas give inputs; the fourth is ruled
  out by the caller's one-byte script length. On the vault's own outputs only
  the hash type remains (`ScriptPath.VaultSpendIffConsensus`).
- The policy floors are said to bound what a leaver can burn by one fee budget
  per withdrawal. The first leaver is bound so. The second floor stands two
  budgets below the schedule whatever the first leaver did, so a second leaver
  can also burn what the first did not: one budget is the bound exactly when
  the first has burnt a whole one (`VaultGame.SecondBurnsMore`).
- `evaluatePolicy` treats an `OR` without branches as passed.
- A Base58Check payload whose data and checksum bytes are all zero gains one
  zero byte in a round trip, and a string of `1`s alone gains one `1`.
- `witnessStackToScriptWitness` writes its item count modulo 256, so a stack
  of more than 100 items does not decode to itself.
- `Ledger.spend` takes its transaction id from the record as presented, and
  stores the outputs under that id whatever is there already. A second record
  with equal content, presented for another coin, therefore replaces the first
  outputs: unspent value disappears, or a spent coin is open again.
  `VaultLedger.SpendExactly` accounts for every spend of every ledger;
  `LedgerRuns.RunConservesExactly` and `RunSpendsOnceExactly` say exactly which
  runs conserve value and spend no coin twice, and `LosingRun` and
  `TwiceSpentRun` are runs that do not. Transactions that name the coin they
  spend, as all the builders' do, are safe (`RunBalances`). The same record
  presented again hashes to another id, because the first spend has written its
  id and fee into it (`ReusedRecordIsSafe`).
- Provisioning compiles the offered policies under the default economics, while
  a roster can be published under others. An offer is the published policy
  exactly when the terms and the surviving vault agree
  (`Provisioning.OfferedConfigIsFinal`); under the default economics no offer
  agrees with the small vault the tests publish (`DefaultOffersMissSmallVault`).
- Key order in canonical forms depends on the comparator. One that ties two
  names makes equal objects print differently (`JsonProofs.TiedNamesDiverge`);
  soundness holds for every comparator.
- A `getKey` call made after `listKeys` has settled is not awaited, and its
  client can outlive the enumeration (`SdkLock.LateCallOutlives`).

## Model

| member | source | states |
|---|---|---|
| PrimeGroup.ResiduesAreAGroup | src/musig2.ts:29-82 | the group laws every MuSig2 theorem assumes are consistent: the residues modulo the order of secp256k1 satisfy all of them |
| MuSig2.SessionCoefficients | src/musig2.ts:97-123 | tweaking keeps the key list and coefficients that aggregation fixed |
| MuSig2Formulas.CoefficientsAre | src/crypto.ts:87-98 | the key first seen to differ from the first key has coefficient 1 at each of its positions; every other position is the hash of the list and its key modulo the order, and all are when the keys are equal |
| MuSig2Formulas.TwoKeys | src/crypto.ts:87-115 | two different keys P and Q aggregate to h(L,P)*P + Q |
| MuSig2Formulas.TweakAdds | src/musig2.ts:108-123 | a plain tweak adds t*G to the key, an x-only tweak adds it to the even lift of the key; it fails exactly when t is not below the order or the sum is infinity |
| MuSig2Formulas.SessionBinds | src/musig2.ts:250-280 | R is R1 + b*R2, or G in place of infinity; without hash collisions two sessions share b exactly when they agree on both aggregate nonces, the x-only tweaked key and the message, and share e exactly when they agree on the x-only nonce, key and message |
| MuSig2Proofs.KeyAggTracks | src/musig2.ts:97-107 | an aggregate starts at Q = sum of a_i*P_i with gacc = 1 and tacc = 0 satisfying the tracking equation |
| MuSig2Proofs.TweakStep | src/musig2.ts:108-123 | one plain or x-only tweak that succeeds keeps Q = gacc*S + tacc*G, Q finite, gacc a sign |
| MuSig2Proofs.TweaksTrack | src/musig2.ts:108-123 | the same over any list of tweaks |
| MuSig2Proofs.SessionTracks | src/musig2.ts:250-280 | in every session Q = gacc*(sum of a_i*P_i) + tacc*G |
| MuSig2Proofs.CoefficientOfKey | src/musig2.ts:125-129 | equal keys get equal coefficients, so the coefficient found at the first position is the key's own at every position |
| MuSig2Proofs.PartialVerifyMeans | src/musig2.ts:329-354 | partial verification accepts exactly when the scalar is in range, the points are finite and the linear signing equation holds |
| MuSig2Proofs.SignVerifies | src/musig2.ts:282-310 | with usable secrets of a listed signer `sign` never fails its self-check, and its partial passes verification, for any session, tweaks and number of signers |
| MuSig2Proofs.SignsExactly | src/musig2.ts:282-310 | signing yields a partial exactly when the session forms, nonces and secret key are in range, the secret key is the stated public key's and that key is listed; the self-check then never refuses |
| MuSig2Proofs.SumOfPartials | src/musig2.ts:356-371 | the verification equations of the first k signers add up to one equation for the sum of their partials |
| MuSig2Proofs.AggregateScalar | src/musig2.ts:356-371 | the aggregate scalar times G is the oriented nonce sum plus e times the even lift of the tweaked key |
| MuSig2Proofs.AggregateValid | src/musig2.ts:356-371 | any full list of individually valid partials aggregates, and the result is a BIP-340 signature for the tweaked key if and only if R1 + b*R2 is not infinity |
| MuSig2Loops.KeyAggregate | src/crypto.ts:72-127 | the key aggregation loop yields the specified aggregate, or the error of an empty set, a bad key, a zero coefficient or a vanishing prefix sum; the second distinct key alone has coefficient 1 and the others are hashed |
| MuSig2Loops.AggregateWeighted | src/crypto.ts:101-114 | the running aggregate equals the sum of the weighted keys, and the loop fails exactly when a term or a prefix sum is infinity |
| MuSig2Loops.SumHalves | src/musig2.ts:208-232 | one half of the nonces is summed, naming the first infinite contribution |
| MuSig2Loops.NonceAggregate | src/musig2.ts:208-232 | the nonce loops compute both sums, first halves checked before second halves |
| MuSig2Loops.ComputeSession | src/musig2.ts:250-280 | the tweak loop and the session hashes yield the specified session values or the first tweak error |
| MuSig2Loops.AddPartials | src/musig2.ts:356-371 | the partials are summed modulo the order, naming the first out of range |
| MuSig2Loops.AggregatePartials | src/musig2.ts:356-371 | the aggregation loop yields the specified signature or error |
| MuSig2Loops.KeyAggSecret | src/crypto.ts:134-149 | the secret exists exactly when every key has one and the weighted sum is not zero modulo the order, and is that sum or its negation by parity |
| MuSig2Loops.AggregateSecretIsDiscreteLog | src/crypto.ts:134-149 | when every secret opens its key, the aggregate secret exists and is the discrete log of the even lift of the untweaked aggregate |
| KeyOrder.KeySortIs | src/crypto.ts:66-68 | the sorted list holds the supplied keys in ascending order, and is the only list that does |
| KeyOrder.SortsAlike | src/crypto.ts:66-68 | two key lists sort to the same list if and only if they hold the same keys with the same multiplicities |
| KeyOrder.AggregateIgnoresOrder | src/vault.ts:329-340 | aggregating sorted keys gives the same aggregate, coefficients and errors for every order in which participants are supplied |
| Ceremony.SessionReachesOutputKey | src/ceremony.ts:316-327 | the session with the single x-only TapTweak succeeds exactly when the Taproot output key exists, and its key is that output key |
| Ceremony.AggregateCheck | src/ceremony.ts:435-508 | after valid partials the final check against the output key can fail only for an infinite effective nonce |
| Ceremony.CeremonyAggregate | src/ceremony.ts:435-508 | the ceremony yields a signature if and only if the session forms, every partial passes and the effective nonce is finite, and then the signature is valid under the output key |
| Ceremony.HonestSignersAllVerify | src/ceremony.ts:387-433 | if every signer uses its own secrets, every call of `sign` succeeds and all partials pass together |
| Ceremony.LocalSecretMatchesOutputKey | src/psbt.ts:1375-1412 | adding the TapTweak to the aggregate secret gives the discrete log of the output key up to BIP-340 parity, and is zero exactly when there is no output key |
| Tapscript.NumRoundTrip | src/consensus.ts:259-272 | script numbers decode to what was encoded, in minimal form, for every integer |
| RecoveryLeaf.CountSignatures | src/consensus.ts:217-238 | the signature loop counts valid signatures against the reversed witness and fails on the first invalid one |
| RecoveryLeaf.ExecuteRecoveryLeaf | src/consensus.ts:168-244 | the cursor-driven parser and evaluator accept exactly the declarative form of the leaf with its lock, witness length and exact count |
| LeafRefinement.KeysRun | src/consensus.ts:197-238 | the stack machine after k keys holds the unread items under the running count of valid signatures, or has failed |
| LeafRefinement.MachineOnLeaf | src/consensus.ts:168-244 | on any leaf of the pattern the machine ends with one true element exactly when lock, items, signatures, budget and count all pass |
| LeafRefinement.BudgetSuffices | src/consensus.ts:217-238 | the BIP-342 signature budget never runs out on a witness the verifier accepts |
| LeafRefinement.RecoveryAcceptedByConsensus | src/consensus.ts:168-244 | what the verifier accepts, consensus accepts exactly when the delay is not negative, the leaf has between one and 999 keys and every hash type is defined |
| LeafRefinement.RecoveryIffConsensus | src/consensus.ts:168-244 | on leaves with delay 0 to 65535 and any positive number of keys, consensus accepts exactly what the verifier accepts with defined hash types and fewer than 1000 witness items |
| LeafRefinement.SingleKeyIffConsensus | src/consensus.ts:151-166 | on a single-key leaf verifier and machine agree on every witness whose hash type is defined |
| LeafRefinement.NegativeDelayDiverges | src/consensus.ts:259-272 | a negative delay is accepted by the verifier and rejected by consensus |
| LeafRefinement.UndefinedHashTypeDiverges | src/consensus.ts:246-257 | a signature with hash type 4 is accepted by the verifier and rejected by consensus |
| LeafRefinement.NoKeysDiverges | src/consensus.ts:197-244 | a leaf without keys and threshold 0 is accepted by the verifier and rejected by consensus |
| RecoveryWitness.ThresholdScript | src/crypto.ts:382-394 | the script is each key followed by its opcode in order, then threshold and NUMEQUAL |
| RecoveryWitness.RecoveryScript | src/crypto.ts:327-334 | the recovery leaf has the delay prefix, the keys in order and threshold max(1, keys - 1) |
| RecoveryWitness.LeafFitsSevenKeys | src/consensus.ts:274-277 | the recovery leaf of a delay from 1 to 65535 keeps within the verifier's one-byte length exactly when it has at most seven keys |
| RecoveryWitness.ParsesBack | src/consensus.ts:181-215 | the verifier's parser reads the built leaf back as the same keys, and delay and threshold exactly when they fit four bytes |
| RecoveryWitness.AssembleWitness | src/psbt.ts:1128-1146 | slot k, read from the end, holds key k's signature while fewer than threshold were placed before it, and is empty otherwise |
| RecoveryWitness.SlotsCount | src/psbt.ts:1128-1146 | the first k slots hold min(threshold, signatures available) valid signatures |
| RecoveryWitness.WitnessSpendsLeaf | src/psbt.ts:1128-1146 | with at least threshold genuine signatures the assembled witness carries exactly threshold of them and spends the built leaf, under the verifier exactly when the threshold fits four bytes and under consensus exactly below 1000 keys |
| RecoveryWitness.CheckShare | src/custody.ts:931-968 | a share raises no problem exactly when context, key, signature and owner fit and its key is new |
| RecoveryWitness.AggregateShares | src/custody.ts:915-982 | aggregation succeeds exactly on threshold-many fitting shares by distinct keys, and its witness holds those signatures in slot order |
| RecoveryWitness.DistinctKeysPlaceAll | src/custody.ts:973-982 | over distinct script keys every collected signature finds exactly one slot |
| RecoveryWitness.AggregateSpendsLeaf | src/custody.ts:973-1007 | the aggregate of threshold shares carries exactly threshold signatures and spends the leaf, under verifier and consensus with the same exact bounds |
| TapTree.FoldPath | src/consensus.ts:111-122 | the loop over the control block folds the sibling hashes in ascending-pair order |
| TapTree.BuildKeepsLeaves | src/crypto.ts:396-401 | the built tree has exactly the given leaves in the given order |
| TapTree.BuildIsTheBalancedTree | src/crypto.ts:396-401 | the built tree is the only one with these leaves in which every left side has as many leaves as the right or one more |
| TapTree.BuildIsShallow | src/crypto.ts:396-401 | n leaves with n at most 2^d lie at most d deep, that is ceil(log2 n) |
| TapTree.LeavesForceDepth | src/crypto.ts:396-401 | no binary tree with that many leaves is shallower, so the bound is met |
| TapTree.PathFoldsToRoot | src/crypto.ts:357-370 | every leaf's control block path folds to the root and is no longer than the tree is deep |
| TapTree.FoldCommits | src/consensus.ts:111-122 | with collision-free, domain-separated hashes a script and path that fold to the root are a leaf of the tree with its own path |
| TapTree.CommitsExactlyToLeaves | src/consensus.ts:111-131 | the fold reaches the root of the built tree if and only if script and path are one of its leaves and that leaf's path |
| ScriptPath.VaultLeaves | src/crypto.ts:293-342 | the leaf list is two single-key leaves per participant and then the recovery leaf, refused exactly when a participant's two keys agree |
| ScriptPath.OnlyOwnLeavesCommit | src/consensus.ts:96-134 | the commitment check of a vault output passes for exactly its own leaves under their own control blocks, leaf version, internal key and parity included |
| ScriptPath.VaultSpendMeans | src/consensus.ts:96-149 | a script-path spend of a vault is accepted if and only if it reveals a solo leaf with one valid signature of that leaf's key, or the recovery leaf after its delay with exactly threshold valid signatures |
| ScriptPath.VaultSpendIffConsensus | src/consensus.ts:96-149 | on vault outputs the verifier accepts a spend with defined hash types if and only if BIP-341 and BIP-342 do |
| SoloPolicies.EvaluateDecides | src/sigbash.ts:590-646 | the list of failures is empty exactly when the AND/OR tree is true, an empty OR counting as true |
| SoloPolicies.NonEmptyOrsAreStandard | src/sigbash.ts:595-646 | where every OR has a branch this is the ordinary truth value |
| SoloPolicies.EmptyOrPasses | src/sigbash.ts:600-612 | an OR without branches passes although no branch holds |
| SoloPolicies.OperatorsPartition | src/sigbash.ts:648-664 | the six operators are the ones of a single three-way comparison |
| SoloPolicies.SoloPolicyMeans | src/vault.ts:452-515 | a transaction passes a solo policy exactly when it has one input with that leaf key, pays the leaver exactly, and leaves at least the floor at the next address in exactly two outputs |
| SoloPolicies.AtMostOnePolicy | src/vault.ts:452-515 | under leaf keys that no two (round, participant) pairs share a transaction passes at most one of the nine solo policies |
| RosterClaims.ValidateRoster | src/custody.ts:109-208 | the claiming loop accepts exactly the rosters of three seats with all round keys in which no public material is claimed twice |
| RosterClaims.StandsExactly | src/custody.ts:109-208 | an accepted roster is one of three different participants, each with both leaf keys of every round it is in, in which no personal key, x-only form, payout key, payout address or leaf key equals another; and every such roster is accepted |
| RosterClaims.ClaimsKeepKeysApart | src/custody.ts:172-186 | in an accepted roster no leaf key serves two (round, participant) pairs |
| RosterClaims.AcceptedRosterSeparatesPolicies | src/custody.ts:109-208 | under an accepted roster a transaction passes at most one of the nine solo policies |
| VaultGame.PolicyAmounts | src/psbt.ts:1333-1354 | payout, floor and both addresses found by scanning the policy are the ones the policy was built from |
| VaultGame.FundingCoinValidates | src/vault-runtime.ts:73-138 | the funding coin validates exactly when three deposits are a safe integer |
| VaultGame.PolicySpendKeepsBounds | src/vault-runtime.ts:91-129 | any value-conserving spend a solo policy accepts takes a validated coin to a validated coin |
| VaultGame.EveryRunStaysInBounds | src/vault-runtime.ts:91-129 | over every adversarial run from the funding coin each coin validates and at most two moves happen; after one the coin is worth at least three deposits less the first withdrawal and one fee budget, after two at least the second withdrawal less two fee budgets |
| VaultGame.SpendingIsAllowed | src/vault.ts:452-515 | a leaver can leave exactly the values from three deposits less the first withdrawal and a fee budget (in round two, the second withdrawal less two fee budgets) up to what the payout leaves over |
| VaultGame.BurnRange | src/config.ts:55-84 | the amounts spends of a coin can leave to fees: from the funding coin exactly 0 to one fee budget, from a pair coin exactly 0 to its value less twice the second withdrawal plus two fee budgets |
| VaultGame.SecondBurnsMore | src/config.ts:55-59 | every second leaver burns at most one fee budget if and only if the first has burnt a whole one |
| VaultGame.ReachableValues | src/config.ts:68-84 | a value is reached by a run of one move, or of two, exactly when it lies between the floor and what the withdrawals leave, all in terms of the economics |
| VaultGame.PairValuesReached | src/vault-runtime.ts:105-114 | every pair coin inside the bounds is reached by one allowed move, so the bounds are tight |
| VaultGame.FinalValuesReached | src/vault-runtime.ts:115-130 | every final payout coin inside the bounds is reached by two allowed moves |
| VaultGame.SoloExitAlwaysPossible | src/vault-runtime.ts:156-311 | for valid economics every current participant of every validated vault coin can build a solo exit, paying the configured fee, passing its own policy and leading to a coin that validates |
| VaultGame.ExitsNeedTwiceTheFee | src/config.ts:125-130 | among economics valid but for their solo fee, every exit of every validated coin builds if and only if twice the fee is within the fee budget |
| VaultGame.BuiltExitsLeave | src/vault-runtime.ts:250-311 | two built exits leave the last participant exactly the second withdrawal less three solo fees, whoever leaves first, and no third exit follows |
| Funding.SharesAddUp | src/funding-ceremony.ts:218-221 | the three fee shares add up to the fee, two are equal and the first is larger by the fee modulo three |
| Funding.ApprovedInputsBuild | src/psbt.ts:57-177 | three approved inputs in roster order build the transaction with the vault output first and change in roster order |
| Funding.FeeSplitsByThirds | src/funding-ceremony.ts:218-221 | in the built transaction every participant gets back its input less the deposit and a third of the fee rounded down, the first one the remainder less, so no two pay more than two satoshis apart |
| Funding.ApprovedInputsFund | src/funding.ts:28-123 | its inputs equal three deposits plus change plus fee to the satoshi, and the confirmed transaction passes the chain check |
| Funding.ProposalBuildsExactly | src/funding-ceremony.ts:123-149 | a proposal builds if and only if there are three approvals at one fee in range by distinct participants from distinct outpoints |
| Funding.OrderDoesNotMatter | src/funding-ceremony.ts:135-149 | the proposal is the same for every order of the approvals |
| Funding.FundingStartsTheGame | src/vault-runtime.ts:96-108 | approvals in any order build a proposal that both confirmation checks accept and whose output 0 is the round-one coin the game starts from |
| Funding.CheckInputs | src/funding.ts:50-73 | inputs pass exactly when none is coinbase, all are supported, large enough and pairwise distinct, and the total is their sum |
| Funding.OnlyMatch | src/funding.ts:75-84 | the vault output is found exactly when one and only one output pays the vault script |
| Funding.AuthorizeConfirmed | src/funding.ts:28-123 | a confirmed transaction is authorized exactly when it funds the vault as specified, and the result is its fee |
| Funding.AuthorizeProposal | src/funding-ceremony.ts:183-216 | a confirmed transaction is accepted exactly when it is the approved one in version, locktime, inputs, sequences and outputs |
| VaultLedger.Ledger.Fund | src/vault.ts:521-527 | the unspent coin is stored under the id of its fields and the map size, and returned |
| VaultLedger.Ledger.Spend | src/vault.ts:529-552 | a spend succeeds exactly when the coin exists, is unspent and covers the outputs, and then stamps the caller's record with id and fee; a refused spend changes neither ledger nor record |
| VaultLedger.Ledger.MarkAllDeposits | src/vault.ts:560-565 | the loop marks exactly the unspent coins at the address and returns their total |
| VaultLedger.Ledger.ConsolidateDeposits | src/vault.ts:560-569 | the marked deposits are replaced by one unspent coin of their total value |
| VaultLedger.FundSound | src/vault.ts:521-527 | the new coin's id is not in use, so funding appends |
| VaultLedger.SpendSound | src/vault.ts:529-552 | a successful spend of the coin its transaction names conserves value up to the fee, spends a coin not spent before, and keeps all ids distinct |
| LedgerEntries.SpendStores | src/vault.ts:529-552 | such a spend marks that coin and no other, and appends one unspent coin per output in order, with its address, value and tag |
| VaultLedger.ConsolidateSound | src/vault.ts:560-569 | consolidation conserves unspent value |
| LedgerEntries.ConsolidationIs | src/vault.ts:560-569 | consolidation spends exactly the unspent coins of positive value at the address, appends one coin there worth what the address held, and leaves the balance of every address as it was |
| VaultLedger.SpendExactly | src/vault.ts:529-552 | for every spend of every ledger with distinct ids: unspent value plus fee plus the unspent value replaced equals the unspent value before; value is conserved exactly when no other unspent value is replaced, and spent entries stay spent exactly when none of them is replaced |
| VaultLedger.ReusedRecordIsSafe | src/vault.ts:539-540 | the record of a successful spend, presented again as stamped, replaces no value and opens no spent coin, unless the ledger held outputs of that stamped record before |
| LedgerRuns.RunAccounts | src/vault.ts:517-569 | over every run unspent value plus fees plus the value replaced on the way equals the value deposited from outside |
| LedgerRuns.RunConservesExactly | src/vault.ts:517-569 | a run conserves value if and only if none of its successful spends replaces another coin's unspent value |
| LedgerRuns.RunSpendsOnceExactly | src/vault.ts:517-569 | at every point of a run no outpoint can be spent a second time if and only if none of its spends stores an output under a spent outpoint, and then its successful spends are distinct |
| LedgerRuns.NamedInputsNeverCollide | src/vault.ts:571-724 | runs whose transactions name the coin they spend meet both conditions at every call |
| LedgerRuns.RunBalances | src/vault.ts:517-569 | over every sequence of calls whose transactions name the coin they spend, unspent value plus fees equals the value deposited and no coin is spent twice |
| LedgerRuns.LosingRun | src/vault.ts:529-552 | two deposits of 5 spent with equal records leave 5 and no fee |
| LedgerRuns.TwiceSpentRun | src/vault.ts:529-552 | a run in which one outpoint is spent successfully twice although value balances |
| VaultLedger.SharedTransactionLosesValue | src/vault.ts:529-552 | an equal record presented for a second coin while the first outputs are unspent loses exactly their total |
| JsonProofs.EscapeUnique | src/sigbash-policy.ts:89-94 | escaped text followed by a quote is read back in one way only |
| JsonProofs.PrintUnique | src/sigbash-policy.ts:89-94 | a printed value followed by anything that cannot extend a number determines the value and the rest |
| JsonProofs.PrintInjective | src/sigbash-policy.ts:89-94 | equal prints come from equal trees |
| JsonProofs.EqualPrintsAreSame | src/sigbash-policy.ts:89-94 | under any comparator, equal canonical prints come from trees equal up to the order of object entries |
| JsonProofs.CanonicalPolicyDecides | src/sigbash-policy.ts:89-94 | where the comparator orders the names of every object, two trees print alike if and only if they are equal up to the order of object entries |
| JsonProofs.TiedNamesDiverge | src/sigbash-policy.ts:89-94 | two names the comparator ties give equal objects that print differently |
| JsonProofs.DecidesExactlyWithoutTies | src/sigbash-policy.ts:89-94 | a comparator decides equality up to key order for all pairs of trees if and only if it ties no two names |
| CompiledPolicy.SetKeyDecides | src/sigbash-policy.ts:54-56 | two address lists are filed under one key exactly when they are the same list |
| CompiledPolicy.RequestWalk.Walk | src/sigbash-policy.ts:78-87 | the walk passes exactly when the tree is small and shallow enough and has no list id |
| CompiledPolicy.Normalizer.Record | src/sigbash-policy.ts:48-62 | filing an inline set fails only if the sets seen are already inconsistent, and otherwise keeps both maps in step with them |
| CompiledPolicy.Normalizer.Normalize | src/sigbash-policy.ts:34-67 | the walk returns the tree with the ids erased and has recorded exactly its inline sets, or the tree is too big, dirty or inconsistent |
| CompiledPolicy.EraseWellFormed | src/sigbash-policy.ts:60-66 | erasing ids keeps objects free of repeated keys |
| CompiledPolicy.AssertCompiledPolicy | src/sigbash-policy.ts:27-72 | under any comparator the checker accepts only trees for which erasing ids gives the request up to key order, ids are well formed and on all inline sets or none, and ids and address lists correspond one to one; it accepts all of them when the comparator orders the request's names; no visiting order enters |
| CompiledExactly.StandsExactly | src/sigbash-policy.ts:27-72 | the accepted trees are exactly the compiler's: the request has at most 4096 nodes and 32 levels and no list id, and the tree is, up to the order of entries, the request with an id "policy_embedded_" and three digits on each of its inline address sets, one to each address list, or with none |
| CompiledExactly.AcceptedIsCompiled | src/sigbash-policy.ts:34-72 | every accepted tree carries a naming of the request's address lists under which the compiler gives that tree up to the order of entries |
| CompiledExactly.Determined | src/sigbash-policy.ts:41-66 | two clean trees that agree once ids are erased, and whose ids are given by their addresses, agree with their ids |
| PolicyCompiler.CompiledStands | src/sigbash-policy.ts:27-72 | for every request and every choice of ids, or none, the compiled tree is accepted if and only if the request is within bounds and names no list id, and the ids are embedded ids, no two lists sharing one |
| PolicyCompiler.ForeignIdsRefused | src/sigbash-policy.ts:39-53 | a list id under another condition type, beside a "use_descriptor", with an empty or mixed address list or anywhere else is refused, and so is one that is not "policy_embedded_" and three digits |
| WitnessCodec.ReadCompactSize | src/funding-signing.ts:528-544 | the offset-moving reader reads one canonical size or refuses |
| WitnessCodec.DecodeScriptWitness | src/funding-signing.ts:526-556 | the decoding loop computes the specified decoder |
| WitnessCodec.WitnessStackToScriptWitness | src/psbt.ts:1414-1421 | the encoder succeeds exactly when every item is at most 252 bytes, and writes count modulo 256, lengths and items |
| WitnessCodec.SizeIsCanonical | src/funding-signing.ts:528-544 | a size is read exactly from its unique shortest encoding, up to 2^53 - 1 |
| WitnessCodec.DecodesExactlyCanonical | src/funding-signing.ts:526-556 | the decoder accepts exactly the canonical CompactSize serializations of stacks of at most 100 items and returns the stack |
| WitnessCodec.AcceptedBytesAreUnique | src/funding-signing.ts:526-556 | no two accepted byte strings decode to one stack |
| WitnessCodec.EncodeThenDecode | src/psbt.ts:1414-1421 | decoding inverts encoding if and only if the stack has at most 100 items |
| Base58Check.AlphabetRoundTrip | src/crypto.ts:156-165 | the alphabet maps digits and symbols back and forth |
| Base58Check.AlphabetIs | src/crypto.ts:156-156 | the alphabet is the digits without 0, the capitals without I and O and the small letters without l, in the order of their codes |
| Base58Check.Base58CheckEncode | src/crypto.ts:181-195 | the digit and leading-`1` loops compute the specified encoding |
| Base58Check.Base58CheckDecode | src/crypto.ts:158-179 | the accumulation and leading-zero loops compute the specified decoding |
| Base58Check.Normal | src/crypto.ts:156-195 | every digit string is its leading zeros followed by the digits of its value |
| Base58Check.PayloadRoundTrip | src/crypto.ts:158-195 | a payload survives encoding, except that an all-zero one comes back one zero longer |
| Base58Check.DecodeAfterEncode | src/crypto.ts:158-195 | decode after encode is the identity if and only if data and checksum are not all zero |
| Base58Check.TextRoundTrip | src/crypto.ts:158-195 | a string over the alphabet survives decoding and re-encoding, except that a string of `1`s gains one |
| Base58Check.EncodeAfterDecode | src/crypto.ts:158-195 | an accepted string re-encodes to itself if and only if it is not all `1` |
| SdkLock.LockRunsQueue | src/sigbash-client-guard.ts:21-28 | in every interleaving the calls form a queue: finished, then at most one running, then waiting |
| SdkLock.MutualExclusion | src/sigbash-client-guard.ts:21-28 | at most one guarded action runs, and actions start in call order |
| SdkLock.FinishFreesNext | src/sigbash-client-guard.ts:21-28 | finishing an action, by success or failure, lets exactly the next call start |
| SdkLock.SomeCallProgresses | src/sigbash-client-guard.ts:21-28 | while a call is unfinished some call can run or finish |
| SdkLock.ListRunsInTurn | src/sigbash-client-guard.ts:114-135 | in every interleaving retrievals settle in call order and only the current one holds a client |
| SdkLock.AtMostOneRetrieval | src/sigbash-client-guard.ts:63-76 | at most one retrieval client is open and none after disposal; without a late getKey call it is open only beside the enumerator and none outlives the enumeration |
| SdkLock.LateCallOutlives | src/sigbash-client-guard.ts:114-135 | after an enumeration has closed one more getKey opens a client in its turn if and only if nothing failed or was disposed, fewer than 64 keys were asked for and the key is new |
| SdkLock.KeysAreDistinct | src/sigbash-client-guard.ts:114-135 | at most 64 keys are fetched, each at most once |
| ListedKeys.FulfilledExactly | src/sigbash-client-guard.ts:114-135 | in every interleaving a retrieval succeeds if and only if it is among the first 64, no key up to it repeats, and it and all before it began usable and had both clients answer well before any disposal; the fetched keys are those of the successful retrievals, and the enumeration has failed exactly when one was rejected |
| ListedKeys.RetrievalOutcome | src/sigbash-client-guard.ts:85-135 | at any point of any run the next retrieval runs to its end; it adds its key exactly when nothing failed or was disposed, fewer than 64 keys were asked for, the key is new and usable and both clients answer well, and otherwise marks a failure |
| ListedKeys.EnumerationDelivers | src/sigbash-client-guard.ts:114-135 | an enumeration whose clients all answer well closes with nothing open, having fetched the keys up to the 64th or the first repetition; it fails exactly when the list goes on from there |
| SdkLock.EnumerationProgresses | src/sigbash-client-guard.ts:114-135 | an open enumeration can always take a step towards closing |
| Provisioning.ConfigForgetsOnlyKeys | src/sigbash-policy.ts:8-19 | two policies give one condition config if and only if they differ at most in local key identifiers |
| Provisioning.ConfigMeans | src/sigbash-policy.ts:8-19 | bound to the one key its policy names, the config permits exactly the transactions the local evaluator passes |
| Provisioning.SoloConfigIs | src/sigbash-policy.ts:8-19 | two rosters under two economics give one config for a solo policy exactly when they agree on the leaver's payout address, the next address, the payout and the floor |
| Provisioning.TermsPinAmounts | src/config.ts:68-84 | payouts and floors agree in all rounds if and only if deposit, both withdrawals and the solo fee budget do |
| Provisioning.LeaveRoundsAre | src/vault.ts:107-113 | round one comes first, then the two pair rounds in the order of the partners |
| Provisioning.PlanMeans | src/sigbash-provisioning.ts:30-78 | the plan offers the participant's first missing pair round, then round one once all six pair keys exist, with that round's key index and config; it lists the rounds done, counts the pair keys, and in between reports how many of the six are missing |
| Provisioning.RoundOneComesLast | src/sigbash-provisioning.ts:58-63 | no round-one key is offered before all six pair keys exist |
| Provisioning.OfferedConfigIsFinal | src/sigbash-provisioning.ts:30-78 | in every run that follows the plans each offer is the published policy of every later roster, the finished one included, if and only if the economics published give the same payout, floor and, for round one, surviving vault; under one economics always |
| Provisioning.DefaultOffersMissSmallVault | src/sigbash-provisioning.ts:63-65 | under the default economics no offer of any run agrees with the roster the small vault publishes |
| Provisioning.RoundOneConfigNeedsPairKeys | src/vault.ts:402-416 | the round-one config of two rosters agrees if and only if the surviving pair's keys do, given addresses that commit to their members |
| Provisioning.SomeoneCanRegister | src/sigbash-provisioning.ts:44-64 | some participant has a next step if and only if fewer than nine keys exist |
| Provisioning.RunsRegisterOneEach | src/sigbash-provisioning.ts:44-64 | each registration of a run adds one of nine keys, so runs end after nine |
| Provisioning.SeatOrderDoesNotMatter | src/vault.ts:329-340 | the order of seats in the roster changes neither the plan nor any policy |

## Left out

- secp256k1, SHA-256, HMAC and Schnorr arithmetic: points are an abstract group and hashes are uninterpreted, injective only where a lemma says so.
- Nonce generation (`nonceGen`) and the erasing of secret buffers: randomness and memory contents.
- Byte parsing of points, nonces and signatures: malformed encodings appear as the point at infinity or as an absent value.
- Script bytes: scripts are lists of opcodes and pushes, as the decompiler yields them; opcodes outside the vault's fail in the stack machine.
- The signature hash: a spend carries an oracle saying which signature, key and hash type are valid.
- Control blocks of the wrong length and witnesses with an annex, both refused before anything modelled here.
- Transaction serialization, virtual size, the fee-rate floor, PSBT fields and address encoding: transactions are records, and a script and its address are one value.
- Artifact digests, coin snapshot digests, proposal expiry and observation freshness: a published vault is taken as reproduced and a snapshot as authentic.
- Cooperative exit, recovery and final sweep builders of the game: their buildability depends on configured fees that validation only requires to be positive.
- BTC-to-satoshi conversion and timestamps: amounts are integers, exact below 2^53 as in the program.
- Round and policy identifiers: a round is the set of its participants.
- Transaction ids in the ledger: an id is the data it hashes.
- JSON numbers are the literals the runtime prints, and `undefined` values do not occur; `localeCompare` is a parameter, and that it orders the names of the request is a condition.
- The SDK, its WASM compiler and socket patching.
- Case folding of hexadecimal text.
- RPC, web pages, databases, command lines, protected files and credentials.
- LedgerRuns.RunBalances: requires every transaction to name the coin it spends, as the builders' do; the exact conditions are `RunConservesExactly` and `RunSpendsOnceExactly`.
- MuSig2Formulas.SessionBinds: requires hashes that separate their inputs modulo the order.
- PolicyCompiler.CompiledStands: the compiler is what the checker's source says of it, ids added to inline sets; its WASM code is not part of this model.
- TapTree.FoldCommits: requires collision-free hashes, since the commitment is computational.
- ScriptPath.VaultSpendIffConsensus: requires collision-free hashes and a binding TapTweak for the same reason, and at most seven recovery keys, which is all the verifier's one-byte script length leaves room for (`RecoveryWitness.LeafFitsSevenKeys`).
- Provisioning.RoundOneConfigNeedsPairKeys: requires addresses that commit to their members.
