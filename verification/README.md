# Verified models of the SIM contracts and of the bytecode verifier

This project models, in Dafny 4.11, the parts of the SIM protocol and of its contract-verification
scripts whose correctness is least obvious, and proves what their code and comments promise.
`dafny verify dfyconfig.toml` checks all of it.

## What is modelled

* **Base64 encoder** (`Base64`, `EvmMemory`, `Rfc4648`). The assembly of `contracts/dependencies/Base64.sol`
  works on a byte array that stands for EVM memory, with 256-bit big-endian words as numbers below 2^256.
  `Rfc4648` states section 4 of RFC 4648 over the bit string of the data and has a decoder of its own.
  The last group reads up to two bytes beyond the data. Those bytes are arbitrary here, and the encoder is
  proved to match the RFC exactly when the first of them sets no pad bit; whatever they are, decoding
  recovers the data.
* **Redemption and insertion hints** (`HintHelpers`, `LiquityMath`, `RedemptionProofs`). A trove list is a
  sequence from the head to the tail. `getRedemptionHints` is proved equal to a recursive greedy walk, and the
  walk is proved to report the greatest redeemable amount, never to revert exactly for prices that fit
  (`PriceFits`), and never to lower a nominal ratio.
* **Redemption itself** (`TroveManager`, `RedemptionOutcome`). The loop of `redeemCollateral`, the consumer of the hints: with the
  hints for an unchanged list it redeems exactly the truncated amount, unless that closes every trove of the
  system. Then, and only then, the loop reverts, because the last trove cannot be closed. For arbitrary lists, requests
  and hints, `RedemptionOutcome` says in plain numbers where the loop starts and how it ends.
* **Sorted list of troves** (`SortedTroves`). The doubly linked list that the hints walk: whatever position
  hints a caller passes, insertion keeps it linked and sorted.
* **Liquidation rewards** (`Redistribution`). The list is never re-sorted when liquidations change all ratios.
  Among troves with proportional stakes and whole rewards so far, the order of ratios is proved to survive the
  floor divisions exactly when the totals grow by whole amounts; without rounding, proportional stakes are exactly
  what it takes. The floored ratios that the list compares survive exactly when the ratios themselves are in order.
* **Time-locked governance** (`TimeLock`, `Controller`, `History`). The contract is a class whose methods are proved to
  be the steps of a state machine; the 48-hour guarantees are proved over every run of that machine. `History` describes
  the state, and which calls go through, by the run alone: an announcement stands until it is carried out or withdrawn.
* **Collateral pools** (`PoolSystem`, `Pools`, `PoolAccounts`). Three contracts that call each other are three classes
  over one token ledger; conservation, solvency and claimability are proved over every run, and the books of every
  single account.
* **Bytecode comparison** (`Bytecode`, `Records`). JavaScript's clamping `slice` is modelled, so masking is
  specified for out-of-bounds ranges too.
* **Library linking** (`Libraries`, `Artifacts`). Records are sequences of entries in insertion order;
  `getLibraryInformation` is specified from its inputs alone.

In the classes a method that returns false has reverted: its contract says that the state is unchanged.

Where the code and its comments differ the model follows the code. `contracts/HintHelpers.sol:58-59` says that a
non-zero `_maxIterations` caps the number of troves considered; the loop at line 90 decrements before it compares,
so a cap of `n` visits `n - 1` troves (`RedemptionProofs.CapIsPrefix`), one fewer than
`contracts/TroveManager.sol:921-922` visits for the same number (`TroveManager.NoHintBeatsTruncated`).
`contracts/SortedTroves.sol:23-26` says that liquidations maintain the order of the list. With the floor divisions of
the code this holds of all troves only for whole rewards (`Redistribution.RewardsKeepOrderIff`), and of floored nominal
ratios not even then (`Redistribution.FlooredOrderBreaks`), unless the exact ratios are in order
(`Redistribution.SortedLaterIff`). `contracts/TroveManager.sol:1073-1083` looks for pending
rewards in the collateral alone, so a debt reward without one is counted by the hints and not by the redemption
(`Redistribution.SkippedReward`); `Redistribution.StoredRedemptionIff` is the exact condition.

## Model

| member | source | states |
|---|---|---|
| EvmMemory.Mstore | contracts/dependencies/Base64.sol:44 | a 32-byte store writes the big-endian bytes of the word and nothing else |
| Base64.TableIsAlphabet | contracts/dependencies/Base64.sol:8 | the table of the library is the alphabet of Table 1 of RFC 4648 |
| Base64.OutWordBytes | contracts/dependencies/Base64.sol:35-42 | whatever surrounds the four characters in the loaded words, including the unmasked first load, the stored word is exactly those characters followed by zeros |
| Base64.GroupWordBytes | contracts/dependencies/Base64.sol:33-42 | the word stored for a group holds the characters of the group's four six-bit fields |
| Base64.EncodeWords | contracts/dependencies/Base64.sol:23-58 | the assembly block leaves the encoding at the result, shrinks its length word, and writes nothing outside the buffer of encodedLen + 32 bytes and its length word |
| Base64.PadAndShrink | contracts/dependencies/Base64.sol:49-57 | the padding switch replaces exactly the characters that carry no data, and the length becomes 4 * ceil(len / 3) |
| Base64.Encode | contracts/dependencies/Base64.sol:11-61 | end to end, the string left at the result, of the length in its length word, is the encoding of the data continued by whatever two bytes follow it in memory; nothing that was allocated before changes |
| Base64.RoundTrip | contracts/dependencies/Base64.sol:11-61 | a decoder that ignores pad bits recovers the data whatever memory holds after it |
| Base64.Injective | contracts/dependencies/Base64.sol:11-61 | different data never share an encoding, whatever memory holds after either |
| Base64.MatchesRfcIff | contracts/dependencies/Base64.sol:33-55 | the result is the encoding of section 4 of RFC 4648, with zero pad bits, if and only if the byte after the data sets no pad bit |
| Base64.StrayPadBits | contracts/dependencies/Base64.sol:33-55 | a concrete memory for which the result is not canonical but still decodes |
| LiquityMath.CRAtLeast | contracts/dependencies/LiquityMath.sol:98-107 | a floored ratio is at least r exactly when the collateral's value covers r times the debt |
| LiquityMath.NominalCRAtLeast | contracts/dependencies/LiquityMath.sol:88-96 | the same for the nominal ratio |
| LiquityMath.WithoutDebt | contracts/dependencies/LiquityMath.sol:88-107 | without debt both ratios are 2^256 - 1 |
| HintHelpers.GetRedemptionHints | contracts/HintHelpers.sol:62-116 | the two loops compute the recursive greedy walk from the first redeemable trove, including the revert on underflow or zero price |
| RedemptionProofs.GreedyTakes | contracts/HintHelpers.sol:90-115 | what the walk leaves of the request depends only on the debts in walking order |
| RedemptionProofs.TakeIsGreatest | contracts/HintHelpers.sol:93-110 | greedy full redemptions and one capped partial redemption reach the greatest exactly redeemable amount within the request |
| RedemptionProofs.TruncatedIsGreatest | contracts/HintHelpers.sol:54-56 | `truncatedSIMamount` is redeemable exactly and no larger amount within the request is |
| RedemptionProofs.TruncatedIsMonotone | contracts/HintHelpers.sol:62-116 | a larger request never reports a smaller amount |
| RedemptionProofs.HintsAreStable | contracts/HintHelpers.sol:62-116 | asking again for the truncated amount gives the same three hints |
| RedemptionProofs.CapIsPrefix | contracts/HintHelpers.sol:86-90 | a cap of c is the uncapped walk over the first c - 1 troves |
| RedemptionProofs.ReachedIsBacked | contracts/HintHelpers.sol:80-99 | every trove from the first redeemable one to the head has collateral worth its debt, although the list is ordered by floored nominal ratios |
| RedemptionProofs.PartialKeepsRatio | contracts/HintHelpers.sol:95-103 | with both floor divisions, a partial redemption of a backed trove neither underflows nor lowers its nominal ratio |
| RedemptionProofs.ModeratePricesFit | contracts/HintHelpers.sol:99 | every price up to 1e37 fits |
| RedemptionProofs.NeverReverts | contracts/HintHelpers.sol:80-99 | on an ordered list and at a price that fits the subtraction never underflows |
| RedemptionProofs.BreakingReverts | contracts/HintHelpers.sol:99 | at any other price a concrete ordered list of two troves makes the call revert; up to 1.1e38 their nominal ratios are positive, as insertion demands |
| RedemptionProofs.PriceTooHigh | contracts/HintHelpers.sol:99 | a concrete price that does not fit |
| RedemptionProofs.NeverRevertsIff | contracts/HintHelpers.sol:80-99 | for lists that may hold nominal ratios of zero the price condition is exact: it holds if and only if no ordered list of troves with debt reverts |
| RedemptionProofs.NeverRevertsPositiveIff | contracts/HintHelpers.sol:80-99 | for the lists that insertion admits, with positive nominal ratios, no list reverts if and only if the price fits or exceeds 1.1e38 |
| RedemptionProofs.PartialHintIsExact | contracts/HintHelpers.sol:52-53 | the hinted ratio is zero if and only if no trove is redeemed in part, and otherwise at least the ratio that trove had |
| HintHelpers.GetApproxHint | contracts/HintHelpers.sol:127-160 | the result is the first closest trove among the tail and the sampled ones, its exact distance, and the (numTrials - 1)-fold hash of the seed |
| HintHelpers.SampleAt | contracts/HintHelpers.sol:138-147 | the samples are the tail and then, for each further hash of the seed, the trove at that hash modulo the number of troves |
| HintHelpers.NoSampleIsNearer | contracts/HintHelpers.sol:149-157 | the hinted trove is exactly `diff` away from the ratio asked for, and no sample has a ratio within less |
| HintHelpers.ApproxHintUnique | contracts/HintHelpers.sol:127-160 | that description determines the result |
| HintHelpers.TrialsCompose | contracts/HintHelpers.sol:118-160 | n trials and then m from the returned seed, keeping the better hint, are one run of n + m - 1 trials |
| TroveManager.RedeemCollateral | contracts/TroveManager.sol:906-945 | the choice of the first trove and the redemption loop compute the recursive redemption: pending rewards, cancelled partial redemptions, and the reverts on underflow, on a zero ratio and on closing the last trove |
| TroveManager.FirstRedeemable | contracts/TroveManager.sol:911-917 | the walk stops at the trove closest to the tail that has the minimum ratio |
| RedemptionOutcome.StartIsBoundary | contracts/TroveManager.sol:841-851 | whatever the hint, the loop starts at a trove worth at least 110 per cent of its debt, and the next trove towards the tail, if any, is worth less |
| RedemptionOutcome.BoundaryHintIsFollowed | contracts/TroveManager.sol:841-851 | a hint that names such a trove is followed |
| RedemptionOutcome.StartIsUnique | contracts/TroveManager.sol:908-917 | on a list in order of current ratio no hint changes where the loop starts, so none spares a trove |
| RedemptionOutcome.LoopEnds | contracts/TroveManager.sol:784-827 | every loop redeems some troves in full and then ends in one of these ways: the request is used up by a part that leaves the next trove one SIM of debt and exactly the hinted ratio; it bails out where no part could do so; it reverts for a stated reason; the request is used up or no trove is left |
| RedemptionOutcome.StaleHintCancels | contracts/TroveManager.sol:805-815 | a partial redemption becomes a bail-out, with all full redemptions kept, under any other ratio hint |
| RedemptionOutcome.ReportedRatioIs | contracts/HintHelpers.sol:95-106 | the ratio that the hints report is the floor of 1e20 times the ratio that the partial redemption leaves, which keeps at least one SIM of debt |
| TroveManager.FirstHintAccepted | contracts/HintHelpers.sol:51 | the first hint is the first trove with ICR >= MCR, is null only if there is none, and passes the validity check of the redemption |
| TroveManager.HintsRedeemExactly | contracts/TroveManager.sol:772-945 | with the hints for an unchanged list, and no reward skipped on any trove that the loop can reach, the loop reverts if and only if request and cap cover all troves of the system; otherwise it redeems exactly the truncated amount and cancels nothing |
| TroveManager.RedeemsAsHintedIff | contracts/TroveManager.sol:772-945 | every request with every cap keeps that promise if and only if no debt reward is skipped on any trove that the loop can reach |
| TroveManager.SkippedCancels | contracts/TroveManager.sol:1006-1083 | for any reachable trove with a skipped debt reward, the request for all debts before it and a given part of its own is reported in full by the hints and cancelled by the loop |
| TroveManager.ReportsAllIff | contracts/HintHelpers.sol:90-115 | the hints report the whole debt of the system if and only if the tail has the minimum ratio and request and cap cover every trove |
| TroveManager.LastTroveReverts | contracts/TroveManager.sol:1191-1195 | a concrete system of one trove whose debt the hints report and whose redemption reverts |
| TroveManager.DrawnAtPrice | contracts/TroveManager.sol:785-788 | the collateral drawn by a redemption is worth at most the debt redeemed, and falls short of it by less than one unit of collateral for each trove redeemed from |
| TroveManager.NoHintRedeemsMore | contracts/TroveManager.sol:908-945 | wherever a first hint makes the loop start, no ratio hint makes it redeem more than the greatest exactly redeemable amount of the debts that it finds from there on, skipped rewards not counted |
| TroveManager.NoHintBeatsTruncated | contracts/TroveManager.sol:908-945 | from the first redeemable trove, hinted or searched for, and with no reward skipped, that is the truncated amount of hints that visit as many troves, with or without a cap |
| Redistribution.WholeRewardsKeepOrder | contracts/SortedTroves.sol:23-26 | whole rewards keep the order of any two troves with proportional stakes, in both directions, and keep the stakes proportional |
| Redistribution.ProportionalIff | contracts/TroveManager.sol:1046-1071 | whole rewards keep the order of two troves for all debts and rewards if and only if their stakes are proportional to their collateral |
| Redistribution.NewStakesProportionalIff | contracts/TroveManager.sol:1133-1148 | the stakes given after a liquidation are proportional for all troves if and only if the snapshot of collateral divides that of stakes |
| Redistribution.RewardsKeepOrderIff | contracts/TroveManager.sol:1046-1071 | with the floor divisions of the code, all troves of admissible debt with proportional stakes and whole rewards so far keep their order if and only if both totals grow by whole amounts |
| Redistribution.MarginKeepsOrder | contracts/TroveManager.sol:1046-1071 | whatever the rewards, troves whose ratios differ by an explicit margin keep their order |
| Redistribution.RedistributionKeepsList | contracts/SortedTroves.sol:14-26 | under these conditions a whole list in order of ratio stays so, stays sorted by floored nominal ratio, and stays a list on which the hint theorems hold |
| Redistribution.FlooredOrderIff | contracts/SortedTroves.sol:23-26 | the floored nominal ratios of two troves with proportional stakes stay in order under all whole rewards if and only if their ratios are in order |
| Redistribution.SortedLaterIff | contracts/SortedTroves.sol:14-26 | a list stays sorted by floored nominal ratio under all later whole rewards if and only if it is in order of ratio |
| Redistribution.FlooredOrderBreaks | contracts/SortedTroves.sol:23-26 | two concrete troves sorted by floored nominal ratio only, which one whole reward puts out of order |
| Redistribution.StoredRedemptionIff | contracts/TroveManager.sol:1006-1083 | from the stored positions and running totals: all redemptions keep the promise of the hints if and only if no reachable trove has the collateral total of its snapshot and a pending debt reward |
| Redistribution.SkippedReward | contracts/TroveManager.sol:1073-1083 | concrete positions and totals on which the hints and the redemption differ |
| SortedTroves.LinkInLinked | contracts/SortedTroves.sol:121-143 | linking a node in between two neighbours yields the links of the order with the id inserted there |
| SortedTroves.LinkOutLinked | contracts/SortedTroves.sol:158-193 | taking a node out yields the links of the order without it |
| SortedTroves.SortedTroves.ValidPositionIff | contracts/SortedTroves.sol:292-308 | a position is accepted as valid if and only if it is a place in the order where the ratio fits |
| SortedTroves.SortedTroves.DescendList | contracts/SortedTroves.sol:316-332 | descending ends at adjacent neighbours between which the ratio fits |
| SortedTroves.SortedTroves.AscendList | contracts/SortedTroves.sol:340-356 | ascending ends at adjacent neighbours between which the ratio fits |
| SortedTroves.SortedTroves.FindInsertPosition | contracts/SortedTroves.sol:368-399 | any hints, stale or absent, lead to a place where the ratio fits |
| SortedTroves.SortedTroves.LinkNode | contracts/SortedTroves.sol:121-143 | the four branches of the link updates agree with linking in between two neighbours |
| SortedTroves.SortedTroves.InsertNode | contracts/SortedTroves.sol:102-147 | insertion succeeds exactly on a free slot, a new non-null id and a positive ratio, inserts at one fitting place (the hinted one if it fits), and keeps the list linked and sorted |
| SortedTroves.SortedTroves.Insert | contracts/SortedTroves.sol:95-100 | the same, for BorrowerOperations and the trove manager only |
| SortedTroves.SortedTroves.RemoveNode | contracts/SortedTroves.sol:158-193 | removal succeeds exactly for an id in the list, takes it out and keeps the list linked and sorted |
| SortedTroves.SortedTroves.Remove | contracts/SortedTroves.sol:149-152 | the same, for the trove manager only |
| SortedTroves.SortedTroves.ReInsert | contracts/SortedTroves.sol:202-215 | re-insertion succeeds exactly for one of the two callers, an id in the list and a positive ratio, and moves the id to a place that fits among the others, the hinted one if that fits |
| Controller.Controller.Init | contracts/Controller.sol:70-74 | succeeds once, with a non-null governance |
| Controller.Controller.AnnounceAddressChange | contracts/Controller.sol:120-127 | succeeds exactly for governance, a non-null value and a type with nothing pending, and then stores the value with a lock of 48 hours; otherwise nothing changes |
| Controller.Controller.ChangeAddress | contracts/Controller.sol:131-155 | moves governance to the announced value and clears the entry exactly when governance asks for a known type with a passed lock; the write before the lock check is undone on revert |
| Controller.Controller.RemoveAddressAnnounce | contracts/Controller.sol:158-165 | for governance only, always clears the pending change of that type with its lock and nothing else |
| Controller.Controller.AnnounceProxyUpgrade | contracts/Controller.sol:171-188 | the loop accepts exactly equal-length batches of distinct proxies, none pending, with non-null implementations, and then stores all pairs and locks |
| Controller.Controller.UpgradeProxy | contracts/Controller.sol:191-209 | the loop goes through exactly when the proxies are distinct, pending, matured and accept their upgrade; it then upgrades each to its announced implementation and clears exactly those entries |
| Controller.Controller.RemoveProxyAnnounce | contracts/Controller.sol:211-218 | for governance only, always clears the pending upgrade of that proxy with its lock and nothing else |
| Controller.Controller.AddressAnnouncesList | contracts/Controller.sol:89-97 | reverts exactly when a lock has no announcement; in a reachable state it lists every pending change once |
| Controller.Controller.ProxyAnnouncesList | contracts/Controller.sol:100-108 | lists every pending upgrade once, and in a reachable state nothing else |
| TimeLock.StepKeepsInv | contracts/Controller.sol:120-218 | every call keeps governance non-null, the address maps on equal keys, and the proxy locks on the proxies with an implementation |
| TimeLock.ReachableInv | contracts/Controller.sol:70-218 | so does every run that starts after init |
| TimeLock.LockNeverSkipped | contracts/Controller.sol:146-149 | in every reachable state a change succeeds exactly for governance with a matured announcement: the branch that skips the lock is dead |
| TimeLock.GovernanceDelay | contracts/Controller.sol:120-155 | a governance change goes back to an announcement of that value made more than 48 hours before and pending ever since |
| History.PendingAddressIff | contracts/Controller.sol:120-165 | what is pending for a type, value and lock, is exactly an announcement neither carried out nor withdrawn since, plus 172800 seconds |
| History.AnnounceAddressIff | contracts/Controller.sol:120-127 | in every reachable state an announcement succeeds exactly for governance, a non-null value and a type for which none stands |
| History.ChangeIff | contracts/Controller.sol:131-155 | in every reachable state a change succeeds exactly for governance when an announcement stands that is older than 172800 seconds |
| History.GovernanceAfter | contracts/Controller.sol:131-155 | a change moves governance to the value of that announcement; no other transaction moves it |
| History.WithdrawIff | contracts/Controller.sol:158-165 | governance, and nobody else, can withdraw at any time |
| History.WithdrawnChangeIsGone | contracts/Controller.sol:158-165 | after a withdrawal a change of governance comes from a newer announcement, itself more than 48 hours old |
| TimeLock.OnlyChangeMovesGovernance | contracts/Controller.sol:131-155 | nothing else changes governance |
| TimeLock.GovernanceChangesApart | contracts/Controller.sol:120-155 | two governance changes are more than 48 hours apart |
| TimeLock.UpgradeDelay | contracts/Controller.sol:171-209 | an upgrade goes back to an announcement of that proxy and implementation made more than 48 hours before and pending ever since |
| TimeLock.RecordedUpgradeDelay | contracts/Controller.sol:171-209 | so does every upgrade recorded by the end of a run |
| TimeLock.RecordedUpgradesApart | contracts/Controller.sol:171-209 | two upgrades of one proxy are more than 48 hours apart, and no batch upgrades a proxy twice |
| History.PendingProxyIff | contracts/Controller.sol:171-218 | what is pending for a proxy is exactly an announcement of that pair neither carried out nor withdrawn since, plus 172800 seconds |
| History.AnnounceProxyIff | contracts/Controller.sol:171-188 | in every reachable state a batch is accepted exactly for governance, equal lengths, distinct proxies for which no announcement stands, and non-null implementations |
| History.UpgradeIff | contracts/Controller.sol:191-209 | in every reachable state a batch of upgrades succeeds exactly for governance and distinct proxies, each with a standing announcement older than 172800 seconds that the proxy accepts |
| History.RecordedUpgradeStood | contracts/Controller.sol:191-209 | every recorded upgrade was accepted by its proxy and was announced, not withdrawn, and due |
| History.WithdrawnUpgradeIsGone | contracts/Controller.sol:211-218 | after a withdrawal an upgrade of the proxy comes from a newer announcement, itself more than 48 hours old |
| TimeLock.UpgradeOrderIrrelevant | contracts/Controller.sol:191-209 | any permutation of a batch succeeds alike and leaves the same pending maps |
| Pools.ActivePool.SendWSTETH | contracts/ActivePool.sol:85-101 | succeeds exactly for its three callers with an amount within tracker and balance; tracker, tokens and the credit of the receiving pool move together or not at all |
| Pools.ActivePool.ReceiveWSTETH | contracts/ActivePool.sol:103-107 | credits the tracker for BorrowerOperations or the default pool and reverts for anyone else |
| Pools.ActivePool.IncreaseSIMDebt | contracts/ActivePool.sol:109-113 | adds to the debt for BorrowerOperations or the trove manager and reverts for anyone else |
| Pools.ActivePool.DecreaseSIMDebt | contracts/ActivePool.sol:115-119 | takes from the debt for its three callers, reverting beyond the debt there is |
| Pools.DefaultPool.SendWSTETHToActivePool | contracts/DefaultPool.sol:69-78 | succeeds exactly for the trove manager with an amount within tracker and balance; both trackers and the tokens move together or not at all |
| Pools.DefaultPool.ReceiveWSTETH | contracts/DefaultPool.sol:80-84 | credits the tracker for the active pool and reverts for anyone else |
| Pools.DefaultPool.IncreaseSIMDebt | contracts/DefaultPool.sol:86-90 | adds to the debt for the trove manager and reverts for anyone else |
| Pools.DefaultPool.DecreaseSIMDebt | contracts/DefaultPool.sol:92-96 | takes from the debt for the trove manager, reverting beyond the debt there is |
| Pools.CollSurplusPool.AccountSurplus | contracts/CollSurplusPool.sol:65-72 | adds to the balance of one account for the trove manager; neither tracker nor tokens move |
| Pools.CollSurplusPool.ClaimColl | contracts/CollSurplusPool.sol:74-86 | pays out the whole positive balance of an account exactly when tracker and tokens cover it; the zeroed balance is restored on a later revert |
| Pools.CollSurplusPool.ReceiveWSTETH | contracts/CollSurplusPool.sol:88-91 | credits the tracker for the active pool and reverts for anyone else |
| PoolSystem.Conservation | contracts/ActivePool.sol:85-119 | over every run, what was reported is the three trackers plus what was sent out plus what was claimed; the default pool tracks what it was sent less what it sent back; and each debt counter holds what was added to it less what was removed |
| PoolSystem.Solvency | contracts/ActivePool.sol:85-107 | over every run the default and surplus pools hold at least what they track, and the active pool's gap is exactly what arrived less what was reported |
| PoolSystem.ActiveSolvencyIff | contracts/ActivePool.sol:103-107 | the active pool holds what it tracks if and only if the reports stay within what arrived |
| PoolAccounts.EveryAccountBalances | contracts/CollSurplusPool.sol:65-86 | over every run each account outside the pools holds its initial tokens plus what the active pool sent it, its claims and transfers to it, less its own transfers, and can claim what was accounted to it less what it claimed |
| PoolAccounts.ClaimPays | contracts/CollSurplusPool.sol:74-86 | a claim pays the account, not the caller, all that was accounted to it and not yet claimed, and no other account anything |
| PoolAccounts.OutsidersMoveNothing | contracts/ActivePool.sol:85-119 | calls of accounts other than BorrowerOperations, the trove manager and the stability pool move no tracker, debt or surplus |
| PoolAccounts.CallsSucceedIff | contracts/ActivePool.sol:85-119 | in every reachable state exactly the listed callers succeed, within trackers and what was added; tokens are never what is missing as long as reports stay within what arrived |
| PoolSystem.SurplusDifference | contracts/CollSurplusPool.sol:65-91 | the sum of the balances exceeds the tracker by what was accounted beyond what was sent, and claims do not change this |
| PoolSystem.ClaimsSucceedIff | contracts/CollSurplusPool.sol:74-86 | distinct accounts can claim one after the other in any order if and only if the tracker covers their balances |
| PoolSystem.SurplusIsClaimableIff | contracts/CollSurplusPool.sol:65-91 | over every run, all accounts can claim if and only if what was sent covers what was accounted; if the two are equal the last claim leaves the tracker at zero |
| Bytecode.GetLibraryOffsets | scripts/hardhat-verify/solc/artifacts.ts:48-58 | collects exactly the ranges of all libraries of all sources |
| Bytecode.GetImmutableOffsets | scripts/hardhat-verify/solc/artifacts.ts:60-68 | collects exactly the ranges of all immutables |
| Bytecode.NullifyBytecodeOffsets | scripts/hardhat-verify/solc/bytecode.ts:160-183 | the loop masks link, immutable and call-protection ranges in that order |
| Bytecode.NullifyAt | scripts/hardhat-verify/solc/bytecode.ts:174-180 | for any ranges, overlapping or out of bounds, masking zeroes exactly the covered characters and pads with zeros beyond the end |
| Bytecode.LengthKeptIff | scripts/hardhat-verify/solc/bytecode.ts:174-180 | masking keeps the length if and only if every non-empty range is in bounds |
| Bytecode.SameCoverSameMask | scripts/hardhat-verify/solc/bytecode.ts:168-180 | in bounds, the result depends only on which characters are covered, not on the order of the ranges |
| Bytecode.OrderMattersOutOfBounds | scripts/hardhat-verify/solc/bytecode.ts:174-180 | out of bounds the order can matter: two concrete ranges |
| Bytecode.MaskIdempotent | scripts/hardhat-verify/solc/bytecode.ts:174-180 | masking twice is masking once |
| Bytecode.CompareIff | scripts/hardhat-verify/solc/bytecode.ts:110-152 | equality of the masked sections in terms of the sections themselves, with the one-sided call-protection case exact |
| Bytecode.Bytecode.Compare | scripts/hardhat-verify/solc/bytecode.ts:110-152 | decides that description for code that is not OVM bytecode |
| Bytecode.MatchesIffAgree | scripts/hardhat-verify/solc/bytecode.ts:127-151 | with byte 0 in no link or immutable range it means equal length and agreement outside the masked ranges |
| Bytecode.NewBytecode | scripts/hardhat-verify/solc/bytecode.ts:36-44 | throws exactly on code too short for a metadata length; for hexadecimal code it cuts the section that the reference inference would |
| Bytecode.SectionsAgree | scripts/hardhat-verify/solc/bytecode.ts:192-213 | reading the metadata length from the whole code or from its last four characters cuts the same section |
| Bytecode.FilledMatchesIff | scripts/hardhat-verify/solc/bytecode.ts:107-152 | deployed code compares equal to an object of its length and metadata length if and only if they differ only in link, immutable and call-protection ranges and in the metadata |
| Bytecode.DigitValue | scripts/hardhat-verify/solc/bytecode.ts:200-203 | a character has a hexadecimal value exactly if it is that digit in lower or upper case |
| Bytecode.HexDecodeReads | scripts/hardhat-verify/solc/bytecode.ts:198-203 | decoding reads each pair of digits as one byte and stops at the first pair that is none |
| Bytecode.InferredIsExecutable | scripts/hardhat-verify/solc/bytecode.ts:192-213 | of an object made of executable section, metadata and the big-endian number of metadata bytes, with or without prefix, exactly the executable section is cut |
| Bytecode.DeployedIsExecutable | scripts/hardhat-verify/solc/metadata.ts:54-56 | the constructor cuts the same from deployed code |
| Bytecode.CompiledMatchesIff | scripts/hardhat-verify/solc/bytecode.ts:110-152 | of two such codes `compare` is true exactly when the executable sections have one length and agree outside the masked ranges, whatever the metadata |
| Bytecode.ProtectedIff | scripts/hardhat-verify/solc/artifacts.ts:75-90 | call protection means a reference that pushes twenty zero bytes and code that pushes twenty bytes |
| Libraries.FullNameInjective | scripts/hardhat-verify/solc/artifacts.ts:252-263 | a fully qualified name determines its source and its colon-free library name |
| Libraries.LengthsCompare | scripts/hardhat-verify/solc/artifacts.ts:199-200 | comparing the lengths of duplicate-free lists compares what each has beyond the other |
| Libraries.LengthIsCoverage | scripts/hardhat-verify/solc/artifacts.ts:199-200 | for a part of the required names the length check is a coverage check |
| Artifacts.GetLibraryFQNames | scripts/hardhat-verify/solc/artifacts.ts:252-263 | lists exactly the full names of the record, without duplicates when library names hold no colon |
| Artifacts.SecondPartOfFullName | scripts/hardhat-verify/solc/artifacts.ts:319-321 | for a source name without colons the second part of a full name is the library name |
| Artifacts.SecondPartIs | scripts/hardhat-verify/solc/artifacts.ts:319-321 | the second part of a name without, with one, and with several colons |
| Artifacts.MatchIff | scripts/hardhat-verify/solc/artifacts.ts:319-321 | the user can name a library in full or by its own name, and in no other way |
| Artifacts.LookupIff | scripts/hardhat-verify/solc/artifacts.ts:312-343 | a lookup succeeds if and only if exactly one required library matches the user's name |
| Artifacts.NormalizeLibraries | scripts/hardhat-verify/solc/artifacts.ts:265-310 | returns if and only if all user libraries have valid addresses and resolve to different required ones; the record then holds exactly those; an error describes the first library that has a problem |
| Artifacts.GetLibraryAddressesFromBytecode | scripts/hardhat-verify/solc/artifacts.ts:345-362 | knows exactly the linked libraries, each with `0x` and the digits that stand at its first reference |
| Artifacts.AddressIsMasked | scripts/hardhat-verify/solc/artifacts.ts:355-358 | the detected address is made of exactly the characters that masking its reference sets to zero |
| Artifacts.SpellingsAgree | scripts/hardhat-verify/solc/artifacts.ts:381 | two spellings of one hexadecimal address, checksummed or not, agree in lower case |
| Artifacts.ToLowerAt | scripts/hardhat-verify/solc/artifacts.ts:381 | lower case changes the letters A to Z and nothing else |
| Artifacts.FindConflicts | scripts/hardhat-verify/solc/artifacts.ts:368-390 | reports exactly the libraries known from both sources whose addresses differ once the user's is in lower case |
| Artifacts.Merge | scripts/hardhat-verify/solc/artifacts.ts:396-409 | the result knows the union, with the new value where there is one |
| Artifacts.MergeLibraries | scripts/hardhat-verify/solc/artifacts.ts:364-415 | returns if and only if there is no conflict, with the union of both sources and the detected address where there is one |
| Artifacts.LengthCheckIsComplete | scripts/hardhat-verify/solc/artifacts.ts:199-207 | when detected libraries are among the required ones, the length check passes if and only if every required library is known |
| Artifacts.GetLibraryInformation | scripts/hardhat-verify/solc/artifacts.ts:161-210 | end to end: returns if and only if the user's libraries resolve, agree with the detected ones and complete them, and then knows exactly the required libraries, with the digits that stand at the first reference of each detectable one |

## Left out

- Numbers are unbounded: the checked overflow of `uint256` additions and multiplications is not modelled; checked subtractions and divisions by zero are.
- Base64.Encode: memory growth, gas and pointer wrap-around are not modelled; memory is an array that is long enough and shorter than 2^240 bytes.
- HintHelpers.GetApproxHint: `keccak256`, the array of trove owners and the tail of the list are parameters.
- TroveManager.RedeemCollateral: models the choice of troves and amounts; the checks on fees, balances and the bootstrap period, the final requirement that something was drawn, and the token and pool calls are not part of it. Of the closing of a trove only the check that it is not the last is modelled; the array of owners and the list have one length.
- SortedTroves.SortedTroves.InsertNode: ratios are a function that does not change during a call.
- Redistribution.RewardsKeepOrderIff: is about troves whose rewards so far are whole; the running totals are arbitrary, and how a liquidation computes them, with its error feedback, is not modelled.
- Controller.Controller.Init: the interface check and the slots written by ControllableV3 are not modelled.
- Controller.Controller.UpgradeProxy: a proxy's `upgrade` is a recorded event that succeeds or fails by a parameter; re-entrancy and the effect of upgrading the controller itself are not modelled.
- Controller.Controller.AddressAnnouncesList: the order in which an enumerable map lists its keys is a parameter, since the library promises none.
- Pools.ActivePool.SendWSTETH: the call of the stability pool's `receiveWSTETH` changes none of the three pools and is not modelled; the token moves exact amounts or fails.
- Wiring of the contracts (`setAddresses`, `renounceOwnership`), events, interface identifiers and version strings.
- Bytecode.Bytecode.Compare: the opcode replacement for OVM bytecode and the inference of compiler versions are not modelled; ranges have natural numbers as bounds.
- Artifacts.GetLibraryInformation: address validity is a parameter, lower-casing covers ASCII, records have no inherited properties such as `toString`, and errors carry fewer fields than the source's; nothing is promised about its result when a detectable library is not among the required ones, beyond Libraries.LengthsCompare.
- The search over build artifacts (`extractMatchingContractInformation`, `lookupMatchingBytecode`) and everything that reads files or the network.
- StabilityPool, BorrowerOperations, PriceFeed, the vote-escrow contracts and the token contracts: not needed by the properties above.
