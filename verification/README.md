# A verified model of the Nolus core algorithms

A model, in Dafny, of the parts of the repository whose correctness needs an argument: searches, numeric
rounding, protocols and rebuilding loops. Each module stands for one component. Code that changes things in
place is a class or a method with loops, tied by its contract to a specification on values. What the component
is for is proved about that specification.

| component | modules |
|---|---|
| topology tool: the search for the DEX network over the IBC channels, the resolution of currencies, their denomination paths | `Channels`, `HostToDex`, `Symbol`, `Topology`, `CurrencyResolution`, `CurrencyDefinitions` |
| trees kept flat and nested | `Tree`, `HumanReadableTree` |
| prices over 128-bit amounts | `Arithmetic`, `Divisors`, `Fractions`, `Bits`, `Price` |
| interest, the loans of the pool and of the leases, liability, pool capacity | `Interest`, `LppLoan`, `LeaseLoan`, `Liability`, `LiquidityPool` |
| delivery of time alarms | `Addresses`, `Alarms`, `TimeAlarms` |
| enumeration of feature combinations | `Combinations` |
| paged migration of leases | `Migration` |
| versions of packages | `Version` |

`Wrappers` declares the `Option` and `Result` types, `Sequences` and `Time` what several components share.

## How the program is represented

* Amounts, times and percents in permille are natural numbers. In `Price`, `Fractions` and `Bits` they are
  bounded by the 128 bits of an amount, every overflow is modelled, and the 256-bit intermediates are proved to
  suffice. A panic is a `None` or an error value there.
* The iteration order of an ordered map is a sequence next to the map. Nothing is assumed of it but that it
  has the keys of the map, hence the results hold for every order.
* A submessage is a step: its effects are rolled back when it fails, the reply is handled next, and only then
  the next submessage runs. A handler may call the alarms contract back any number of times.
* Storage and the current time are parameters or state. Calls to other contracts appear as their effects.

## Where the code and its documentation or purpose part

The model follows the code. Each of these is proved, together with the exact condition where there is one.

* The documentation of `amount_to_liquidate` promises the total due once it is not below the lease amount.
  The code returns the lease amount; the two are the same only if the due equals the lease amount
  (`Liability.FullLiquidation`).
* `deposit_capacity` is 0 when the floored utilization equals the minimum, although there may be room left
  (`LiquidityPool.CapacityNotTight`); `LiquidityPool.CapacityLargestIff` says exactly when it is the largest
  deposit that keeps the utilization.
* `parse` accepts leading zeroes, and an empty first or second part, which section 2 of Semantic Versioning
  2.0.0 does not (`Version.PrintsBackIff`, and `Version.NotPrintedBack` for an example).
* The sum of two prices may have a zero quote amount, which prices are documented never to have: when the exact
  sum overflows and both prices are below 10^-18. Only debug assertions catch it. `Price.AddOutcome` says exactly
  when a sum ends like this, when it panics, and when it is a price; `Price.AddZeroQuote` gives two such prices.
* The product of two prices cancels the amount of the first against the quote amount of the second, but not the
  other two: it may be trimmed although the exact product is a price (`Price.MulNotExact`). With those of the
  first pair cancelled and the terms fitting it is exact (`Price.MulUntrimmed`).
* The DEX path of the currency native to the host is not checked against the channels: the networks passed may
  not be connected, or be left for the host over another channel. `CurrencyResolution.LocalDexPathExact` gives
  the condition on the topology, `CurrencyResolution.LocalDexPathDirect` that for a currency listed directly at
  the DEX: its path is right exactly when the DEX is connected to the host.
  `CurrencyResolution.LocalDexPathOfUnconnected` is a topology violating it.
* The panic over a host network already traversed is taken for unreachable. It is, unless the host itself is the
  DEX network (`CurrencyResolution.TraversedOnlyAtHost`), for which a path is found only over a channel from the
  host to itself.
* `from_node` covers a subtree only in pre-order vectors, which is what `into_tree` makes (`Tree.RunsAreSubtrees`,
  and `Tree.RunMissesDescendant` for an example of another vector).
* Following the continuation keys of a migration gets stuck at a customer with more leases than a page takes
  (`Migration.MigrateAll`).

## Model

| member | source | states |
|---|---|---|
| HostToDex.FindPath | tools/topology/src/host_to_dex.rs:41-50 | on any symmetric channel map the search ends, succeeds exactly when the DEX is reachable, and yields the (channel, counterpart) hops of a walk than which no walk is shorter; with the host as the DEX it succeeds only over a channel to itself |
| HostToDex.DirectHostToDexPath | tools/topology/src/host_to_dex.rs:52-71 | a direct hop is found exactly when the two networks are adjacent, and the counterpart lookups never panic |
| Channels.HopsAt | tools/topology/src/host_to_dex.rs:12-39 | each hop of a path is the channel of the network left and, as its counterpart, that of the network entered |
| HostToDex.IndirectHostToDexPath | tools/topology/src/host_to_dex.rs:83-117 | the breadth-first loop ends with a shortest chain, or with nothing exactly when the DEX is out of reach, although neighbours of the host may be queued twice |
| HostToDex.SearchRound | tools/topology/src/host_to_dex.rs:101-116 | one round of the loop either finds a shortest path or keeps the invariant of the search while the bound on what is left decreases |
| HostToDex.InitialHostToDexPaths | tools/topology/src/host_to_dex.rs:119-146 | one path of one hop for each neighbour of the host, in their order; an error exactly when the host has no entry |
| HostToDex.ExplorePathBreadthFirst | tools/topology/src/host_to_dex.rs:148-207 | finds the DEX exactly when it is a neighbour not traversed yet; otherwise queues, at the back and in order, one extended path for each new neighbour and marks exactly those |
| HostToDex.ExtendedInOrder | tools/topology/src/host_to_dex.rs:159-206 | the paths queued lead to exactly the networks not traversed, in the order of the entries, each by the pair of channels of that one hop |
| HostToDex.TakeLastNew | tools/topology/src/host_to_dex.rs:163-171 | taking the last entry from the back of a lazily filtered iterator marks just the entries passed over |
| HostToDex.LastNewApart | tools/topology/src/host_to_dex.rs:163-171 | treating the last new neighbour apart, taken before the others, yields the same paths in the same order |
| HostToDex.VisitNeighbour | tools/topology/src/host_to_dex.rs:172-206 | the path of each new neighbour is the path walked plus one hop, whether the buffer is cloned or taken over |
| HostToDex.NoShorterWalk | tools/topology/src/host_to_dex.rs:101-116 | under the invariant of the search no walk to a network not discovered yet is shorter than the level being explored |
| HostToDex.NothingQueued | tools/topology/src/host_to_dex.rs:101-105 | when the queue is exhausted a network not discovered is not connected to the host |
| HostToDex.Explored | tools/topology/src/host_to_dex.rs:107-116 | exploring the front of the queue keeps the invariant of the search, the start's neighbours not being marked beforehand notwithstanding |
| HostToDex.ClosedCutsOff | tools/topology/src/host_to_dex.rs:83-117 | a walk from the host never leaves a set of networks with all of their neighbours in it |
| Symbol.Builder.constructor | tools/topology/src/symbol.rs:21-32 | a new builder stands for a currency that came over no channel |
| Symbol.Builder.AddChannel | tools/topology/src/symbol.rs:34-39 | the path grows in place by one transfer segment for the channel |
| Symbol.Builder.AddSymbol | tools/topology/src/symbol.rs:41-49 | the path of all the channels added and the symbol; without channels the bare symbol, otherwise the digest of that path |
| Symbol.DenomFormat | tools/topology/src/symbol.rs:83-100 | a path is "transfer/", a channel and "/" for each channel, the first added outermost, followed by the symbol |
| Symbol.DenomInjective | tools/topology/src/symbol.rs:83-100 | a denomination path, in the form of section 'Data Structures' of ICS 20 (Fungible Token Transfer), determines the channels and the base currency it was built from |
| CurrencyResolution.ResolveNonHostIbcCurrency | tools/topology/src/currency_resolution.rs:113-169 | one step follows the currency to the next network with the channel added where there is one, or fails with the reason it cannot be followed |
| CurrencyResolution.ResolveDexSide | tools/topology/src/currency_resolution.rs:32-111 | on every topology, cycles included, the resolution ends, at the end of the one complete trace; the host is never passed after the start |
| CurrencyResolution.TraversedOnlyAtHost | tools/topology/src/currency_resolution.rs:95-97 | the panic over a host already traversed happens exactly when the host is the DEX and the currency leads back to it, hence never with a DEX other than the host |
| CurrencyResolution.FoldBankSide | tools/topology/src/currency_resolution.rs:269-293 | adds exactly the channels along the route, or fails at the first pair of networks not connected |
| CurrencyResolution.ResolveBankSide | tools/topology/src/currency_resolution.rs:192-267 | a currency not native to the host gets the host-to-DEX channels and then those of the route; a host one gets its bare symbol |
| CurrencyResolution.ResolveCurrency | tools/topology/src/currency_resolution.rs:13-30 | the result is that of a complete trace of the currency, for every topology, errors included |
| CurrencyResolution.ResolvedOnce | tools/topology/src/currency_resolution.rs:13-30 | a currency has exactly one result: no two complete traces lead to different ones |
| CurrencyResolution.RemoteBankPath | tools/topology/src/currency_resolution.rs:192-293 | for a currency not native to the host the networks it came through are all connected, its DEX path is exactly the channels between them, and its bank path is the channels from the host to the DEX, unless they are the same, followed by those |
| CurrencyResolution.RemoteBankPathFromHost | tools/topology/src/currency_resolution.rs:239-294 | the bank path is exactly the channels, each network's own to the next, along a shortest walk from the host to the DEX and on through the networks the currency came from; the bank symbol is the digest of it |
| CurrencyResolution.IdsAt | tools/topology/src/currency_resolution.rs:239-244 | of each channel on the way to the DEX it is the near end that is added |
| CurrencyResolution.AllHops | tools/topology/src/currency_resolution.rs:269-293 | of each pair of networks it is the channel of the former to the latter that is added |
| CurrencyResolution.LocalDexPathExact | tools/topology/src/currency_resolution.rs:84-111 | the DEX path a host currency resolves to is the path of the networks it came through if and only if these are all connected, the last is connected to the host, and its channel to the host has the id of that of the first network of the path found |
| CurrencyResolution.LocalDexPathDirect | tools/topology/src/currency_resolution.rs:84-111 | for the host currency listed directly at the DEX the path is right if and only if the host and the DEX are connected |
| CurrencyResolution.LocalDexPathOfUnconnected | tools/topology/src/currency_resolution.rs:84-111 | there is a topology with the host currency listed at a DEX network reached over another one where the DEX path it resolves to is not the path it came over |
| CurrencyDefinitions.CurrencyDefinitions | tools/topology/src/lib.rs:30-85 | which error is given and when, that on success the definitions are those of all the currencies listed, in order, exactly one of them being the host's, over the path found, and that the panic over the host takes a DEX that is the host with a channel to itself |
| CurrencyDefinitions.DefineAll | tools/topology/src/lib.rs:50-84 | stops at the first currency not resolved or at a second host one; otherwise splits all of them |
| CurrencyDefinitions.SplitInOrder | tools/topology/src/lib.rs:50-84 | the definitions are split into exactly the local and exactly the remote ones, each in the order listed |
| Tree.DescendsIffRun | platform/packages/tree/src/tree/subtree.rs:24-44 | in a pre-order vector a later node descends from a node exactly when no parent in between comes before that node |
| Tree.RunsAreSubtrees | platform/packages/tree/src/tree/subtree.rs:24-44 | the contiguous runs are exactly the subtrees if and only if the vector is in pre-order |
| Tree.SubtreeFromNode | platform/packages/tree/src/tree/subtree.rs:24-44 | on a pre-order vector the range covers exactly the node and all its descendants; it panics exactly when an index or the length does not fit |
| Tree.RunMissesDescendant | platform/packages/tree/src/tree/subtree.rs:24-44 | a vector not in pre-order where the range of a node misses a descendant |
| HumanReadableTree.Flatten | platform/packages/tree/src/tree/human_readable.rs:112-139 | appending node by node gives the flattened tree with every child referring to the index its parent ends up at; it panics exactly when the index of a branch does not fit, leaves being unlimited |
| HumanReadableTree.IntoTree | platform/packages/tree/src/tree/human_readable.rs:21-27 | unless the index of a branch does not fit, yields a pre-order vector from which the tree is built back, up to empty branches |
| HumanReadableTree.IntoTreePreOrder | platform/packages/tree/src/tree/human_readable.rs:112-139 | every parent comes before its children, and the descendants of each node follow it without a gap |
| HumanReadableTree.RoundTrip | platform/packages/tree/src/tree/human_readable.rs:21-63 | flattening and rebuilding gives back the tree with empty branches turned into leaves |
| HumanReadableTree.RoundTripExact | platform/packages/tree/src/tree/human_readable.rs:21-63 | it gives back the very tree if and only if the tree has no empty branch |
| HumanReadableTree.PreOrderIffFlattened | platform/packages/tree/src/tree/human_readable.rs:21-63 | the pre-order vectors, however long, are exactly the flattened trees, and rebuilding one and flattening it gives back the vector |
| HumanReadableTree.LastOfMaxParent | platform/packages/tree/src/tree/human_readable.rs:36-43 | picks the last of the nodes with the largest parent, the root excepted |
| HumanReadableTree.TakeOut | platform/packages/tree/src/tree/human_readable.rs:36-43 | for any vector with parents before children a node is removed after all of its children, and before its parent and its earlier siblings |
| HumanReadableTree.TakenWithout | platform/packages/tree/src/tree/human_readable.rs:36-43 | each removal keeps the order in which the nodes are removed |
| HumanReadableTree.KeptTakeOut | platform/packages/tree/src/tree/human_readable.rs:45-54 | each removal keeps, for every parent left, its removed children built and in reverse order |
| HumanReadableTree.KeptBuilds | platform/packages/tree/src/tree/human_readable.rs:65-81 | a node removed is converted to its whole subtree, siblings in order |
| HumanReadableTree.ConvertNodeToHrt | platform/packages/tree/src/tree/human_readable.rs:65-81 | a node with kept children becomes a branch with these reversed, any other one a leaf |
| HumanReadableTree.FromTree | platform/packages/tree/src/tree/human_readable.rs:29-63 | for any vector with parents before children the loop yields the tree given by the parent relation, and nothing is left over |
| HumanReadableTree.BuiltInOrder | platform/packages/tree/src/tree/human_readable.rs:29-81 | the subtree built of a node has its value and exactly the subtrees of the nodes naming it their parent, in the order of their indices |
| Divisors.GcdGreatest | platform/packages/finance/src/coin/mod.rs:96-120 | every common divisor divides the one computed |
| Divisors.CoprimeRatioUnique | platform/packages/finance/src/coin/mod.rs:96-120 | there is one coprime pair for each ratio, by Euclid's lemma |
| Fractions.Of | platform/packages/finance/src/fractionable/mod.rs:44-59 | the shortcut for equal parts changes nothing: the result is the floored exact product |
| Bits.TrimmedFits | platform/packages/finance/src/price/mod.rs:198-215 | shifting out at least the bits above the width of an amount leaves what fits; shifting out just those leaves the top bit set |
| Bits.ProductOfAmounts | platform/packages/finance/src/price/mod.rs:114-115 | the product of two amounts has at most an amount's width of bits too many |
| Price.IntoCoprimeWith | platform/packages/finance/src/coin/mod.rs:96-120 | the pair is coprime and the arguments are its multiples by their greatest common divisor |
| Price.New | platform/packages/finance/src/price/mod.rs:66-93 | the price built is canonical and of the same ratio |
| Price.EqualIffSameRatio | platform/packages/finance/src/price/mod.rs:242-250 | canonical prices are equal field by field exactly when they are the same ratio |
| Price.NewEqualIff | platform/packages/finance/src/price/mod.rs:85-93 | prices built from any non-zero amounts are equal exactly when the ratios of the amounts are |
| Price.CmpTotalOrder | platform/packages/finance/src/price/mod.rs:252-268 | the comparison is a total order consistent with equality, and `inv` an involution on prices that reverses it |
| Price.AtMostTrans | platform/packages/finance/src/price/mod.rs:252-268 | the comparison is transitive |
| Price.TotalFloor | platform/packages/finance/src/price/mod.rs:328-331 | a total is the floored exact value, and overflows exactly when that does not fit |
| Price.TotalMonotone | platform/packages/finance/src/price/mod.rs:328-331 | the total is monotone in the amount and in the price under the code's own comparison, overflow included |
| Price.TotalThereAndBack | platform/packages/finance/src/price/mod.rs:130-135 | converting there and back with the inverse never gains and loses at most amount / amount_quote rounded up |
| Price.TrimDown | platform/packages/finance/src/price/mod.rs:207-215 | what is left fits an amount; it is lost exactly when there were no other bits |
| Price.ExactProductRatio | platform/packages/finance/src/price/mod.rs:110-115 | cancelling crosswise before multiplying keeps the exact ratio |
| Price.ExactProductLeast | platform/packages/finance/src/price/mod.rs:110-115 | the terms before trimming are no larger than with any other common divisors cancelled crosswise |
| Price.ExactProductCoprime | platform/packages/finance/src/price/mod.rs:110-115 | with a ratio in its lowest terms the terms before trimming are coprime |
| Price.LossyMulExact | platform/packages/finance/src/price/mod.rs:106-128 | the product is exact whenever its terms fit with some common divisors of the amount and the parts, and of the quote amount and the total, cancelled |
| Price.LossyMulRepresentable | platform/packages/finance/src/price/mod.rs:106-128 | with a ratio in its lowest terms the product is the exact one whenever that is a price |
| Price.TrimmedBounds | platform/packages/finance/src/price/mod.rs:116-128 | trimmed terms fit, bound the ratio from both sides, and one of them keeps its top bit; nothing changes when nothing is in excess |
| Price.LossyMulTrimmed | platform/packages/finance/src/price/mod.rs:106-128 | the product with a ratio is exact when nothing is trimmed off the terms cancelled crosswise, otherwise Q'·A < Q·(A'+1), Q·A' < (Q'+1)·A and max(A',Q') is at least 2^127; it fails exactly when one of these terms is trimmed away, never on narrowing |
| Price.MulBounds | platform/packages/finance/src/price/mod.rs:307-323 | the same for the product of two prices, against their exact product |
| Price.MulUntrimmed | platform/packages/finance/src/price/mod.rs:307-323 | the product of two prices is exact whenever its terms fit with some common divisor of the first amount and the second quote amount cancelled |
| Price.MulNotExact | platform/packages/finance/src/price/mod.rs:307-323 | two prices whose exact product is a price, but not the one yielded, as the other two amounts are not cancelled |
| Price.CheckedAddTerms | platform/packages/finance/src/price/mod.rs:156-183 | the sum over the least common multiple of the amounts is of the exact ratio |
| Price.CheckedAddExact | platform/packages/finance/src/price/mod.rs:156-183 | the sum is exact and canonical, and fails exactly when a term of it overflows |
| Price.CheckedAddIff | platform/packages/finance/src/price/mod.rs:156-183 | the sum succeeds exactly if over some common multiple of the amounts neither term overflows |
| Price.AddOutcome | platform/packages/finance/src/price/mod.rs:280-292 | exactly when a sum is a price, when it overflows, and when its quote amount is zero |
| Price.AddZeroQuote | platform/packages/finance/src/price/mod.rs:185-195 | two prices whose sum has a zero quote amount |
| Price.AddBounds | platform/packages/finance/src/price/mod.rs:185-195 | whenever there is a sum, exact or lossy, it lies in (exact − 2/10^18, exact] |
| Interest.AccruedNested | platform/packages/finance/src/interest.rs:11-21 | the interest is the part for the period, rounded down, of the annual one, itself rounded down |
| Interest.AccruedBounds | platform/packages/finance/src/interest.rs:11-21 | the interest does not exceed the exact one, and the nested roundings lose less than one unit plus one for each year |
| Interest.InterestMono | platform/packages/finance/src/interest.rs:11-21 | longer periods accrue no less |
| Interest.PrincipalMono | platform/packages/finance/src/interest.rs:11-21 | larger principals accrue no less |
| Interest.RequotedInterest | platform/packages/finance/src/interest.rs:23-40 | after paying r of I what is quoted at the same instant is at least I − r, at most I − r + 1 + annual/YEAR, and 0 when r = I; the period paid for is never longer than the one due |
| LppLoan.InterestSincePaid | protocol/contracts/lpp/src/loan.rs:27-33 | the interest due is what has accrued since the paid-through time, within the bounds of the exact one over that time, and nothing before it |
| LppLoan.RepaidAfter | protocol/contracts/lpp/src/loan.rs:27-59 | the paid-through time only moves forward and never passes the time of the payment; the interest re-quoted is what was left unpaid but for rounding |
| LppLoan.Loan.constructor | protocol/contracts/lpp/src/loan.rs:10-14 | a loan is given its principal, rate and start |
| LppLoan.Loan.Repay | protocol/contracts/lpp/src/loan.rs:35-55 | the payment goes to the interest accrued since the paid-through time, then to the principal, the rest is in excess; the three sum up to it, and the new state is the repaid one |
| LeaseLoan.WaterfallAgrees | protocol/contracts/lease/src/loan/mod.rs:119-170 | for every payment and every split of the accrued interest and margin into overdue and due parts the shares and the change sum up to the payment, no part is paid before those ahead of it are paid in full, the pool's own split agrees with an excess of 0, and no margin comes back |
| LeaseLoan.OneReceipt | protocol/contracts/lease/src/loan/mod.rs:131-160 | there is but one receipt that sums up to the payment and keeps the priority |
| LeaseLoan.AccruedSplit | protocol/contracts/lease/src/loan/state.rs:34-64 | the overdue and due parts sum up to what accrued, with no underflow |
| LeaseLoan.OverdueSincePaid | protocol/contracts/lease/src/loan/state.rs:34-64 | overdue is exactly what had accrued a due period ago, nothing if the margin is paid through less than that ago |
| LeaseLoan.AccruedSincePaid | protocol/contracts/lease/src/loan/mod.rs:172-201 | all that is due is the principal and what has accrued since the paid-through times |
| LeaseLoan.LeaseLoan.constructor | protocol/contracts/lease/src/loan/mod.rs:93-105 | the margin is paid by the start of the lease |
| LeaseLoan.LeaseLoan.RepayMargin | protocol/contracts/lease/src/loan/mod.rs:203-212 | the margin's paid-through time moves forward only, and not past the payment |
| LeaseLoan.LeaseLoan.Repay | protocol/contracts/lease/src/loan/mod.rs:119-170 | the assertions of the code hold, the payment is shared in the order of priority, the profit gets exactly the margin, the principal goes down by its share, and what is re-quoted is what was left but for rounding |
| LeaseLoan.PaymentFacts | protocol/contracts/lease/src/loan/mod.rs:119-223 | the same of the states before and after any payment |
| LeaseLoan.LeaseLoan.CloseFull | protocol/contracts/lease/src/lease/close.rs:64-105 | always repays in full: the reserve adds exactly the shortfall, the customer receives exactly the surplus, nothing stays due |
| LeaseLoan.PaymentStep | protocol/contracts/lease/src/loan/mod.rs:119-223 | what one payment keeps: conservation, monotone paid-through times |
| LeaseLoan.RunConserves | protocol/contracts/lease/src/loan/mod.rs:119-223 | over any run of payments the interest, margin, principal and change paid sum up to the payments, and nothing is charged on a loan paid off |
| Liability.LiquidationHeals | platform/packages/finance/src/liability/mod.rs:129-147 | nothing is liquidated below the maximum; from there to the lease amount the liquidation does not exceed the due and leaves it at the healthy percent of the rest, or one unit above |
| Liability.FullLiquidation | platform/packages/finance/src/liability/mod.rs:129-147 | when the due is not below the lease amount it is the latter that is liquidated, which is the due only if they are equal |
| Liability.BorrowLargest | platform/packages/finance/src/liability/mod.rs:114-127 | the amount lent is the largest within the initial percent of the lease and within the optional cap |
| Liability.NoLiquidationAtOpening | platform/packages/finance/src/liability/mod.rs:114-147 | a lease just opened never asks for a liquidation, for every downpayment and cap |
| LiquidityPool.FullyUtilized | protocol/contracts/lpp/src/lpp.rs:324-330 | nothing left in the pool is full utilization |
| LiquidityPool.UtilizationAtLeast | protocol/contracts/lpp/src/lpp.rs:324-330 | when the floored utilization reaches a percent, without division |
| LiquidityPool.CapacityFits | protocol/contracts/lpp/src/lpp.rs:109-137 | the subtractions do not underflow whenever the utilization exceeds the minimum |
| LiquidityPool.CapacityCases | protocol/contracts/lpp/src/lpp.rs:109-137 | there is no limit exactly if there is no minimum, and no capacity at or below the minimum |
| LiquidityPool.CapacityTight | protocol/contracts/lpp/src/lpp.rs:109-137 | depositing the capacity keeps the minimum, one unit more does not, whenever the utilization exceeds the minimum |
| LiquidityPool.CapacityLargestIff | protocol/contracts/lpp/src/lpp.rs:109-137 | the capacity is the largest deposit keeping the minimum if and only if the utilization exceeds it, or equals it with no room left |
| LiquidityPool.CapacityNotTight | protocol/contracts/lpp/src/lpp.rs:109-137 | an example of a utilization at the minimum where more could be deposited |
| Alarms.BatchEarliest | platform/packages/time-oracle/src/alarms.rs:72-86 | a batch is alarms strictly before the time, by time and at the same time by address, none left out is earlier, and some are left out only when it is full |
| Alarms.Alarms.constructor | platform/packages/time-oracle/src/alarms.rs:59-70 | there is neither an alarm nor anything out for delivery at first |
| Alarms.Alarms.AlarmsSelection | platform/packages/time-oracle/src/alarms.rs:72-86 | selects all the alarms up to the bound, the earliest first, equal times by address |
| Alarms.Alarms.Add | platform/packages/time-oracle/src/alarms.rs:93-95 | the subscriber's one alarm is at the time given, in whole seconds |
| Alarms.Alarms.EnsureNoInDelivery | platform/packages/time-oracle/src/alarms.rs:97-104 | fails exactly when something is out for delivery |
| Alarms.Alarms.OutForDelivery | platform/packages/time-oracle/src/alarms.rs:106-113 | moves the alarm to the back of the queue |
| Alarms.Alarms.LastDelivered | platform/packages/time-oracle/src/alarms.rs:115-128 | takes the front of the queue, fails on an empty one |
| Alarms.Alarms.LastFailed | platform/packages/time-oracle/src/alarms.rs:130-138 | takes the front of the queue and registers it again a second before now |
| TimeAlarms.TimeAlarms.TryAnyAlarm | platform/contracts/timealarms/src/alarms.rs:45-54 | tells whether any alarm is in range |
| TimeAlarms.TimeAlarms.TryAdd | platform/contracts/timealarms/src/alarms.rs:61-76 | succeeds exactly for a contract and a time not past, and then registers the alarm at that time; refuses without a change otherwise |
| TimeAlarms.TimeAlarms.TryNotify | platform/contracts/timealarms/src/alarms.rs:78-106 | sends out exactly the batch due, in order, or fails without a change exactly when some alarms are out |
| TimeAlarms.TimeAlarms.LastDelivered | platform/contracts/timealarms/src/alarms.rs:108-110 | forwards a success to the queue |
| TimeAlarms.TimeAlarms.LastFailed | platform/contracts/timealarms/src/alarms.rs:112-114 | forwards a failure to the queue |
| TimeAlarms.CalledKeeps | platform/contracts/timealarms/src/alarms.rs:61-106 | while alarms are out, adds and dispatches called back leave the queue as it is, lose no alarm and change only those added |
| TimeAlarms.CalledRegisters | platform/contracts/timealarms/src/alarms.rs:61-76 | the last alarm of a subscriber a handler adds is registered at its time |
| TimeAlarms.ReplyStep | platform/contracts/timealarms/src/contract.rs:98-120 | each reply pops its own subscriber; a failed one is due again in the same block, the subtraction never underflowing |
| TimeAlarms.RepliesRun | platform/contracts/timealarms/src/contract.rs:98-120 | after any number of replies the queue is the rest of it, no reply has failed, and alarms not concerned are unchanged |
| TimeAlarms.DispatchRun | platform/contracts/timealarms/src/alarms.rs:78-114 | during a dispatch the queue is exactly the part of the batch not replied to; a subscriber delivered to is gone, a broken one is registered again at now − 1, and all others keep their alarms, but for those added by handlers meanwhile |
| TimeAlarms.TransactionKeeps | platform/contracts/timealarms/src/contract.rs:98-120 | every transaction starts and ends with nothing out for delivery |
| TimeAlarms.RunsKeep | platform/contracts/timealarms/src/alarms.rs:61-114 | in every run of adds and dispatches no dispatch fails |
| TimeAlarms.NoAlarmLost | platform/contracts/timealarms/src/alarms.rs:61-114 | in every run an alarm stays registered until a dispatch delivers it |
| TimeAlarms.AddingRegisters | platform/contracts/timealarms/src/alarms.rs:61-76 | an alarm accepted is registered at the time asked for, all others unchanged |
| TimeAlarms.TransactionOn | platform/contracts/timealarms/src/alarms.rs:61-114 | an alarm not added anew stays as it is or is sent out, in which case it has been due and, unless it breaks, is gone |
| TimeAlarms.AlarmWaits | platform/contracts/timealarms/src/alarms.rs:61-114 | in every run an alarm stays registered at its time until a dispatch past that time or another alarm added |
| TimeAlarms.NeverEarly | platform/contracts/timealarms/src/alarms.rs:61-114 | in every run no alarm is sent out at or before the time it was added for |
| Combinations.CombinationIterator.constructor | tools/cargo-each/src/combinations_iter/mod.rs:278-288 | the stack at first stands for the whole enumeration |
| Combinations.CombinationIterator.Next | tools/cargo-each/src/combinations_iter/mod.rs:290-312 | yields the next of what the stack stands for and leaves the rest, or ends when there is none |
| Combinations.BuildCombinationsWithAtLeastOne | tools/cargo-each/src/combinations_iter/mod.rs:278-313 | the stack machine ends, and its outputs are the non-empty subsets of the features, in the order of the recursive enumeration |
| Combinations.BuildCombinations | tools/cargo-each/src/combinations_iter/mod.rs:269-276 | the empty combination comes first, before all the others |
| Combinations.EnumeratedIsRendered | tools/cargo-each/src/combinations_iter/mod.rs:278-313 | the recursive enumeration is the subsets, each joined with commas |
| Combinations.PicksExact | tools/cargo-each/src/combinations_iter/mod.rs:278-313 | every non-empty subset is picked exactly once, 2^n − 1 in all, in the order of a dictionary with the features for letters |
| Combinations.JoinedInjective | tools/cargo-each/src/combinations_iter/mod.rs:299-305 | different subsets of different features without commas join to different strings |
| Combinations.JoinedParts | tools/cargo-each/src/combinations_iter/mod.rs:299-305 | an output read back between its commas is exactly the features picked, in order |
| Combinations.CombinationsDiffer | tools/cargo-each/src/combinations_iter/mod.rs:278-313 | hence there are 2^n − 1 outputs, no two of them the same |
| Migration.MigrateBatch.constructor | protocol/contracts/leaser/src/migrate.rs:77-83 | a batch starts empty with room for the leases of a page |
| Migration.MigrateBatch.MigrateLeases | protocol/contracts/leaser/src/migrate.rs:86-113 | all of the leases are scheduled, in order, or none, depending on the room left |
| Migration.MigrateBatch.MigrateOrBeNext | protocol/contracts/leaser/src/migrate.rs:116-127 | a customer is migrated as a whole or becomes the next one |
| Migration.MigrateLeases | protocol/contracts/leaser/src/migrate.rs:28-51 | a page is a run of whole customers that fit while one more does not, with the key to go on with; an error only from the first customer past it |
| Migration.PageOutcome | protocol/contracts/leaser/src/migrate.rs:28-51 | the first customer that fails to load fails the page with its error, one with too many leases to count likewise, one that does not fit is the next; without any all are migrated |
| Migration.PageLongest | protocol/contracts/leaser/src/migrate.rs:28-51 | the first customers fit a page exactly as far as the page reaches: no longer run would |
| Migration.Load | protocol/contracts/leaser/src/state/leases.rs:69-83 | the customers from the key on, inclusive, in ascending order |
| Migration.MigratePage | protocol/contracts/leaser/src/leaser.rs:90-124 | a page goes on exactly where the previous one ended |
| Migration.MigrateAll | protocol/contracts/leaser/src/leaser.rs:90-124 | following the keys ends; every lease is migrated exactly once and in order if and only if no customer has more leases than a page takes, otherwise the first such customer decides how it ends |
| Migration.AllLeasesAt | protocol/contracts/leaser/src/leaser.rs:90-124 | what is migrated in all is the leases of each customer, one customer after the other |
| Version.Parse | platform/packages/versioning/src/software/version.rs:29-68 | succeeds exactly on three parts of digits, the last not empty, each within 16 bits, without an intermediate overflow, and yields their values |
| Version.NotAccepted | platform/packages/versioning/src/software/version.rs:29-68 | once a prefix has a bad symbol, too many parts or too large a one, nothing after it helps |
| Version.DecimalValue | platform/packages/versioning/src/software/version.rs:71-75 | the digits printed for a number have its value and no leading zero |
| Version.FitsIff | platform/packages/versioning/src/software/version.rs:38-41 | a number is taken for a segment exactly if it is at most 65535 |
| Version.PrintedExample | platform/packages/versioning/src/software/version.rs:71-75 | an example of a version printed |
| Version.PrintedIsAccepted | platform/packages/versioning/src/software/version.rs:29-75 | every version is parsed back from what it is printed as |
| Version.PrintsBackIff | platform/packages/versioning/src/software/version.rs:29-75 | an accepted string is printed back if and only if its parts are numbers as section 2 of Semantic Versioning 2.0.0 has them |
| Version.NotPrintedBack | platform/packages/versioning/src/software/version.rs:29-75 | an accepted string that is printed differently |

## Left out

- Contract entry points, messages, events, batches, access control, bank, IBC and ICA plumbing, JSON and storage formats: input and output.
- The currency visitor, group and matcher machinery, and the currency tags of coins and prices: compile-time typing. With the tags goes the invariant of prices that amounts in the same currency are equal (platform/packages/finance/src/price/mod.rs:144-150).
- SHA-256 and the hexadecimal form of symbols: the digest is any function of the path.
- How the channel map comes to be symmetric: the code assumes it of the map it is given, and so does the model.
- HostToDex.FindPath: says that the path is a shortest one, not which of several.
- Divisors.GcdGreatest: the crate computing the greatest common divisor is not part of this model; Euclid's algorithm stands for it.
- Interest, loans, liability and the pool: their amounts and times are unbounded, the panics on 128-bit and 64-bit overflow are not modelled. In `Price`, `Fractions` and `Bits` they are.
- LeaseLoan.AccruedSplit: models the overdue parts directly by the period they cover; how periods are cut is not part of this model.
- `find_by` and the iterators over subtrees: plain searches of a range.
- LeaseLoan.LeaseLoan.CloseFull: models the payments and the loan; the position, the leases' state machine and partial closing are not part of this model.
- Liability zones and their cuts, the interest-rate curve, price feeds, deposits, rewards, pool quotes and opening a loan: easy members next to these, or state of other components.
- Alarms.Alarms.AlarmsSelection: the storage index is the map sorted by time and address; addresses are numbers in their order, 0 being the empty one, which no contract has.
- Migration.MigrateBatch.MigrateLeases: scheduling a message, which fails only if it cannot be serialized, does not fail here; the order of a customer's leases is taken as given.
- Migration.MigrateBatch.MigrateOrBeNext: likewise, scheduling does not fail.
- Migration.MigrateAll: the customers do not change between the pages.
- Combinations: the reading of the configuration and the combining of configured sets of features (`configured_package_combinations`, `cross_join`) are not part of this model.
- Combinations.CombinationsDiffer: for different features without commas, which names of features are.
- Version.Parse: says when it fails; the messages of the panics are not part of this model.
