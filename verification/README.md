# Verification of the DORA service utilities

A Dafny model of the parts of the DORA service utilities that move money or must survive being
interrupted, with proofs of what they promise:

* **Stablecoin equivalence** (`Stablecoin`, `ConversionProofs`, `ActivateProofs`, `CleanupProofs`, `RunProofs`,
  `OverflowProofs`): covering a requirement in one stablecoin with whole dollars of others, and converting back later,
  across different decimal exponents. Map iteration is an arbitrary choice, so the proofs hold for every order. The
  int64 arithmetic wraps in the model; the proofs show where it does not, and what holds even where it does.
* **Liquidity pools** (`Rounding`, `Arithmetic`, `Pools`, `PoolProofs`, `LiquidityProofs`, `SwapProofs`, `FeeProofs`): `big.Float` is modelled
  as exact real arithmetic rounded to 53 or 64 bits, nearest even, proved against an independent definition of
  "nearest". From it follow the bounds under which the float path is integer division, and then the economic
  properties of deposits, withdrawals and swaps.
* **The JSON form of balances** (`Text`, `AssetID`, `Accounts`, `Codec`, `Numbers`, `Ledger`, `Positions`): the
  hand-written printer and parser are inverse and canonical, and what the parser makes of numbers that the printer never
  writes. `Balances` and `Position` are classes, as in the program.
* **Migrations** (`Migration`, `MigrationProofs`, `MigrationParser`): the runner as a machine that can be stopped at any
  database call, and the cutting of a file into statements.

`Machine` holds Go's fixed-width integers, `Integers` and `Totals` are lemmas about products, quotients and sums.

## Where the code does not do what is said of it

Each entry names the result that says exactly when the code does meet the claim, and one that shows an input for
which it does not.

* Cleanup is to convert back what activation converted. It restores the position exactly if the user did not owe the
  target asset, or no other currency held a whole dollar (`CleanupProofs.CleanupRestoresIff`); a user with 5 B who
  owes 1 A and needs 1 A is never restored (`CleanupProofs.CleanupExample`).
* A withdrawal that passes every guard can fail, and leave the pool without shares and without base in its books,
  because a failing checked subtraction stores zero: one share, 2^53 + 3 base (`LiquidityProofs.RemoveCanStrand`). All
  withdrawals succeed exactly if the conversion to 53 bits rounds neither reserve up
  (`LiquidityProofs.RemoveSucceedsIff`), so always up to 2^53.
* Pool amounts are uint64, but the calculations convert them to int64 and drop the sign: from 2^63 on, an amount x counts
  as 2^64 - x (`PoolProofs.PortionMirror`), so that all shares of a pool with 2^64 - r base pay out r
  (`PoolProofs.LargeReserveStays`), and such a reserve pays nothing in swaps (`PoolProofs.LargeReservePaysNothing`).
  Below 2^63 every amount counts as it is.
* `SubToZero` documents negative input as a no-op; it adds instead, so that taking -1 from 1 gives 2
  (`Accounts.NegativeAdds`). Such input changes nothing exactly if it is zero, and leaves the result alone exactly where
  the balance is not positive (`Accounts.NegativeIsNoOpIff`). Amounts are conserved exactly only while the sum stays
  near int64 (`Accounts.TakeToZeroConserves`).
* The printer's comments give 12.13 as an example of an amount, and the parser demands an object of floats. It then
  drops the points, and reads 1213 (`Numbers.PointIsLost`). Numbers are read as they stand exactly if they have no
  exponent, their digits fit int64, and they are zero or have no fraction (`Numbers.NumbersReadIff`).
* The parser is to refuse invalid asset IDs, but first drops the characters that make them invalid: an entry for U$DY is
  stored for UDY (`Numbers.KeyIsChanged`, and `Codec.KeysAreStripped` in general). Entries are stored under their own
  keys exactly if all keys are valid IDs (`Numbers.KeysReadIff`).
* End markers of migration files are documented as optional and case-insensitive. Only the lower-case spelling ends a
  statement; the others pass as comments. Leaving markers out or respelling them changes nothing exactly if every
  block concerned has code before its end and none after it (`MigrationParser.EndMarkersOptional`,
  `MigrationParser.EndMarkersCaseInsensitive`); otherwise statements run together, or an empty one appears
  (`MigrationParser.SpellingShows`, `MigrationParser.SpellingExample`).
* The documentation asks for versions in sequence without checking it. Restarting is safe exactly if they are positive
  and strictly ascend (`MigrationProofs.RestartSafeIff`). Stopped right before a file that breaks the order, no number
  of further runs records that file (`MigrationProofs.BreakIsLost`).
* A position that holds an invalid asset ID anywhere cannot be copied: the copy, which activation and cleanup return,
  holds nothing, and otherwise it is complete (`Positions.Position.Copy`, `Positions.InvalidIsNotCopied`).

## Model

| member | source | states |
|---|---|---|
| Stablecoin.ActivateStablecoinEquivalence | helpers/users.go:7-59 | unless a division would panic, the position's owned and SSEQ balances become those of the specification for the order in which the map was iterated; nothing else changes; the result is the position or its copy |
| Stablecoin.CleanupStablecoinEquivalence | helpers/users.go:63-133 | unless a division would panic, for some lost and some gained asset the balances become those of one conversion back; with none of either, nothing changes |
| Stablecoin.ComputeExp10 | helpers/users.go:146-152 | the loop computes the power of ten, with wrap-around, that the other results speak about |
| Stablecoin.Exp10ZeroIff | helpers/users.go:136-152 | the wrapped power of ten, which the program divides by, is zero exactly for exponents from 64 on |
| ConversionProofs.Exp10Congruent | helpers/users.go:146-152 | for every exponent it is the power of ten modulo 2^64 |
| ConversionProofs.TruncDivMeaning | helpers/users.go:136-143 | the division rounds toward zero, for negative amounts too |
| ActivateProofs.ActivateConverts | helpers/users.go:22-57 | for any requirement that the user does not hold, in every iteration order, exactly min(goal, dollars available) reach the target, less than one unit past the requirement; short of it only if no other currency has a whole dollar left |
| ActivateProofs.ActivateCovers | helpers/users.go:7-59 | whatever the user held before: afterwards the target holds what is required, or every other currency less than one unit |
| ActivateProofs.ActivateUnchanged | helpers/users.go:12-17 | nothing changes if nothing is required, the target already holds it, or it is no currency |
| ActivateProofs.ActivateExactly | helpers/users.go:22-57 | the target and its record gain the missing amount, rounded up to whole units, or all whole dollars of the other currencies if those are fewer |
| ActivateProofs.NeededIff | helpers/users.go:15-17 | the program acts exactly on a positive requirement above what is held; one of 2^63 or more is read as negative |
| ActivateProofs.GoalMeaning | helpers/users.go:23-25 | the goal is the least number of whole dollars that covers the need |
| ActivateProofs.ConvertAllMeaning | helpers/users.go:27-57 | with headroom no product or sum wraps and no subtraction fails in the loop: the balances are the original ones with the drawn dollars moved |
| ActivateProofs.DrawnTotal | helpers/users.go:27-57 | the dollars drawn do not depend on the order of the assets |
| ActivateProofs.ActivateKeeps | helpers/users.go:48-55 | owned minus SSEQ is constant per asset, other assets are untouched, and the totals of owned and of SSEQ at 18 decimals are unchanged |
| ActivateProofs.ActivateOwned | helpers/users.go:38-53 | no amount is drawn below zero |
| CleanupProofs.CleanupMeaning | helpers/users.go:87-130 | a call moves the computed amount, scaled to both exponents, or does nothing if it is not positive |
| CleanupProofs.ComputedIsLargest | helpers/users.go:96-119 | that amount is the largest that the owned balance and both records allow at the smaller exponent |
| CleanupProofs.CleanupKeepsSigns | helpers/users.go:121-130 | no SSEQ entry changes sign and the asset given back is never overdrawn |
| CleanupProofs.CleanupKeeps | helpers/users.go:123-130 | a call, whatever it picks, keeps native balances, other assets and both totals |
| CleanupProofs.StepDrops | helpers/users.go:91-130 | a call that changes anything strictly lowers the total still recorded as gained |
| CleanupProofs.CleanupTerminates | helpers/users.go:61-133 | a run of calls that each change something is bounded by what was recorded at its start |
| CleanupProofs.CleanupUndoesActivate | helpers/users.go:61-133 | after activation has drawn from k assets, k calls, whichever assets they pick, restore every owned and SSEQ amount, and fewer do not |
| CleanupProofs.OwedTargetIsNotRestored | helpers/users.go:87-123 | if the target was owed and another currency held a whole dollar, no number of calls restores it |
| CleanupProofs.CleanupRestoresIff | helpers/users.go:61-133 | k calls restore the position exactly when the target was not owed or no other currency held a whole dollar |
| CleanupProofs.ActivateDrawsIff | helpers/users.go:38-46 | activation records a loss exactly if another currency holds a whole dollar |
| CleanupProofs.CleanupExample | helpers/users.go:7-133 | for a user with 5 B who holds or owes up to 1000 A and needs more, there is such a run, and it restores the position exactly if there was no debt |
| CleanupProofs.RunExists | helpers/users.go:61-133 | from every position there are runs of cleanup calls of every length, so the results about runs are never empty |
| RunProofs.RunKeeps | ledger/types/position.go:14-23 | over every run of activations and cleanups native balances are constant per asset, other assets are untouched, and both totals are preserved |
| RunProofs.RunBalanced | ledger/types/position.go:20-23 | SSEQ entries always cancel out after decimals, and owned amounts differ from the start by exactly SSEQ |
| OverflowProofs.ActivateSafe | helpers/users.go:7-59 | for every registry, amount and order without a panic: native balances are kept modulo 2^64, and nothing but the target rises or is drawn below zero |
| OverflowProofs.CleanupSafe | helpers/users.go:63-133 | the same for one cleanup call, whatever it picks |
| OverflowProofs.RunSameNative | ledger/types/position.go:20-23 | over every run, with no bound on anything, owned minus SSEQ is constant modulo 2^64 for every asset |
| RunProofs.CopyIsSame | ledger/types/position.go:196-206 | a copied position has the same owned and SSEQ amounts |
| Positions.Position.Copy | ledger/types/position.go:196-206 | a copy holds all non-zero entries of all six balances and the other fields, or nothing if any ID is invalid; what is remembered of the original is copied in any case |
| Positions.InvalidIsNotCopied | ledger/types/position.go:196-206 | a position with one unit of a pair of an asset with itself has an empty copy |
| Rounding.RoundScaledIsNearest | math/arithmetic.go:116-122 | no value with that many bits is closer than the rounded one, and ties go to the even mantissa |
| Rounding.RoundScaledRepresentable | math/arithmetic.go:116-122 | the rounded value has that many bits |
| Rounding.RoundScaledError | math/arithmetic.go:116-122 | rounding errs by at most half a unit in the last place |
| Rounding.RoundScaledMonotone | math/arithmetic.go:116-122 | rounding keeps order |
| Arithmetic.MulF | math/arithmetic.go:116-122 | every product in the chain is rounded to 53 bits |
| Arithmetic.AddF | math/arithmetic.go:97-103 | every sum in the chain is rounded to 53 bits |
| Arithmetic.ShareExact | pools/types/pools.go:272-281 | the float path reserve * (part / whole), truncated, is integer division for products up to 2^53 - 2^43 |
| Arithmetic.ShareAtMost | pools/types/pools.go:272-279 | for any shares, and any reserve that 53 bits do not round up, it never exceeds the reserve; it is the reserve for all shares of up to 2^53 |
| Arithmetic.ShareOfAllExceeds | pools/types/pools.go:272-279 | for all shares, and a reserve that 53 bits round up, it exceeds the reserve |
| Arithmetic.ShareInexact | pools/types/pools.go:272-279 | from 2^53 + 1 on it can be off in either direction |
| Pools.Pool.AddLiquidity | pools/types/pools.go:204-254 | results and the whole new state are those of the specification, error branches included |
| Pools.Pool.RemoveLiquidity | pools/types/pools.go:257-297 | results and the whole new state are those of the specification, error branches included |
| Pools.Pool.AddAmount | pools/types/pools.go:162-180 | a reserve grows by the amount, or nothing changes |
| Pools.Pool.SubAmount | pools/types/pools.go:183-201 | a reserve shrinks by the amount, or nothing changes |
| Pools.Pool.AddAccumulatedFees | pools/types/pools.go:59-75 | the fee is booked for its asset, or nothing changes |
| PoolProofs.AddOutcomes | pools/types/pools.go:204-254 | for every pool and deposit: the reason of each refusal, which changes nothing; on success the books change by exactly what is answered |
| PoolProofs.RemoveOutcomes | pools/types/pools.go:257-297 | the same for withdrawals |
| PoolProofs.RemoveFailureZeroes | pools/types/pools.go:282-291 | a withdrawal fails late exactly if a payout exceeds its reserve; then that reserve is zero, and the shares are gone |
| PoolProofs.ReserveOutcomes | pools/types/pools.go:162-201 | a reserve is changed exactly if the pool holds the asset and the result is a uint64; else nothing changes |
| PoolProofs.WithdrawUndoesDeposit | pools/types/pools.go:162-201 | taking out what was put in restores the pool |
| PoolProofs.AccrueOutcomes | pools/types/pools.go:59-75 | fees reach the field of their asset modulo 2^64, or nothing changes |
| PoolProofs.PortionMirror | pools/types/pools.go:271-281 | in every argument, an amount counts like 2^64 minus it |
| PoolProofs.LargeReserveStays | pools/types/pools.go:271-296 | withdrawing all shares of a pool with 2^64 - r base pays r and leaves the rest |
| PoolProofs.SimulateOutcomes | pools/types/pools.go:371-400 | the reasons for which a swap is refused, and the assets of the answer |
| PoolProofs.LargeReservePaysNothing | pools/types/pools.go:313-331 | a reserve of 2^63 or more, or without an asset, pays nothing |
| LiquidityProofs.AddRefinesFloor | pools/types/pools.go:233-253 | a deposit into a pool with base takes and mints the floored proportional amounts, and succeeds |
| LiquidityProofs.AddToEmpty | pools/types/pools.go:224-253 | the first deposit takes the ratio's share and mints base plus quote, both rounded down if the share is whole or the sum stays a 2^-52th part below the next integer, the quote already if the share stays a 2^-63th part below, and else at most one unit more |
| LiquidityProofs.AddFailureZeroes | pools/types/pools.go:242-251 | a deposit fails late exactly on overflow; the first field that overflows becomes zero, those before it keep the deposit, those after it miss it |
| LiquidityProofs.RemoveRefinesFloor | pools/types/pools.go:271-296 | a withdrawal pays the floored proportional amounts, and succeeds |
| LiquidityProofs.RemoveSucceedsIff | pools/types/pools.go:267-296 | every withdrawal past the guards succeeds exactly if 53 bits round neither reserve up |
| LiquidityProofs.RemoveNeverFails | pools/types/pools.go:267-296 | for reserves up to 2^53 a withdrawal past its guards succeeds, and one of all shares empties both reserves |
| LiquidityProofs.RemoveCanStrand | pools/types/pools.go:283-290 | just above that bound a withdrawal fails and leaves shares and base at zero |
| LiquidityProofs.AddThenRemove | pools/types/pools.go:204-297 | withdrawing the shares just received returns no more base and no more quote than was paid, and leaves the others' reserves at least as large |
| LiquidityProofs.RunConsistent | pools/types/pools.go:204-297 | over every run shares exist exactly when base does, and an empty pool has no quote |
| LiquidityProofs.RunBasePerShare | pools/types/pools.go:204-297 | over every run in which shares remain, base per share never falls |
| LiquidityProofs.DepositTerms | pools/types/pools.go:233-251 | a deposit keeps base per share, and (quote + 1) per share does not fall below the old quote per share |
| LiquidityProofs.WithdrawalTerms | pools/types/pools.go:271-293 | a withdrawal lowers neither base nor quote per share |
| SwapProofs.SwapPaysAllItCan | pools/types/pools.go:390-395 | the output is the largest that does not lower the product of the reserves |
| SwapProofs.SplittingNeverHelps | pools/types/pools.go:390-397 | inputs swapped one after another never pay out more than their total at once |
| SwapProofs.SwapMeaning | pools/types/pools.go:371-401 | for any fee that is not negative, what a swap applied to the pool does to reserves and booked fees |
| SwapProofs.FeeNotNegative | math/arithmetic.go:67-78 | the computed fee is never negative for a factor that is not |
| FeeProofs.FeeRounds | math/arithmetic.go:67-78 | up to 2^53 the fee is the exact product of amount and factor, rounded to 53 bits once and truncated |
| FeeProofs.FeeMeaning | math/arithmetic.go:67-78 | which is the product rounded down if it is whole or a 2^-52th part below the next integer, and else at most one more |
| FeeProofs.FeeMonotone | math/arithmetic.go:67-78 | a larger amount or factor never costs less |
| FeeProofs.FeeAtMost | math/arithmetic.go:67-78 | for factors up to one it never exceeds the amount |
| FeeProofs.SimulateMeaning | pools/types/pools.go:371-401 | fee, output and refusals of a swap in terms of the reserves, the factor and the amount |
| FeeProofs.SimulateExample | pools/types/pools.go:371-401 | with 1000 of each asset and one percent, selling 1000 costs 10 and buys 497 |
| SwapProofs.RunKeepsProduct | pools/types/pools.go:162-201 | over every run of swaps in both directions base * quote never falls and no reserve reaches zero |
| SwapProofs.RunGivesNothingAway | pools/types/pools.go:371-401 | a run that does not raise one reserve does not lower the other |
| AssetID.ValidIffGrammar | ledger/types/assetID.go:16-61 | an ID is accepted exactly if it is a word, or two words around a hyphen, of which the second is Coupon_ or Snapshot_ and an int64, or differs from the first; and does not start with either prefix |
| AssetID.PairIsValid | ledger/types/assetID.go:38-58 | when the second of two words may follow the first |
| AssetID.TestedIDs | ledger/types/assetID_test.go:12-35 | the IDs that the repository's tests list as valid and as invalid |
| Codec.RoundTrip | ledger/types/balances_json.go:14-109 | parsing what was printed succeeds and yields exactly the non-zero entries, for every valid balances |
| Codec.ParseRender | ledger/types/balances_json.go:50-109 | the parser accepts the entries in any order |
| Codec.RenderIsFlat | ledger/types/balances_json.go:60-65 | printed text is a JSON object of numbers |
| Codec.PrintCanonical | ledger/types/balances_json.go:31-41 | two balances print alike exactly if they agree on every asset |
| Codec.PrintAscends | ledger/types/balances_json.go:31-41 | the text lists exactly the non-zero entries, by ID in the order of a dictionary |
| Codec.PrintExample | ledger/types/balances_json.go:14-42 | one printed text, character by character |
| Text.LessIsBefore | ledger/types/balances_json.go:32 | that order: a proper prefix comes first, else the smaller character at the first difference |
| Codec.Reprint | ledger/types/balances_json.go:14-42 | printing what was parsed back gives the same text |
| Codec.ParsedValid | ledger/types/balances_json.go:87-103 | the parser only ever holds valid IDs, one for each line read |
| Codec.ParseLinesMeaning | ledger/types/balances_json.go:75-104 | for all lines: the parser keeps exactly what the lines before the first bad one say, and succeeds exactly if none is bad; good is a new valid ID, a colon and an int64 |
| Codec.OthersDoNotMatter | ledger/types/balances_json.go:67-73 | texts that differ only in whitespace and other characters not listed parse alike |
| Codec.KeysAreStripped | ledger/types/balances_json.go:67-73 | so do objects whose keys differ only in them |
| Codec.ParseObject | ledger/types/balances_json.go:67-103 | what an object of distinct valid IDs is parsed to is decided, entry by entry, by the kept characters of its numbers |
| Numbers.ParseNumbers | ledger/types/balances_json.go:50-109 | an object of JSON numbers is parsed exactly if none has an exponent and all digits fit int64, and then each asset has the number of the digits without the point |
| Numbers.DigitsMeaning | ledger/types/balances_json.go:72-73 | leaving out the point multiplies by a power of ten |
| Numbers.NumbersReadIff | ledger/types/balances_json.go:50-109 | such an object is read as it stands exactly if every number has no exponent, fits, and is zero or has no fraction |
| Numbers.PointIsLost | ledger/types/balances_json.go:35 | 12.13 is read as 1213 |
| Numbers.KeysReadIff | ledger/types/balances_json.go:85-90 | entries are stored under their own keys exactly if all keys are valid IDs |
| Numbers.KeyIsChanged | ledger/types/balances_json.go:67-90 | an entry for U$DY is stored for UDY |
| Ledger.Balances.MarshalJSON | ledger/types/balances_json.go:14-42 | fails exactly on an invalid ID, and otherwise returns the non-zero entries by ID in the order of a dictionary |
| Ledger.Balances.UnmarshalJSON | ledger/types/balances_json.go:50-109 | result and new contents are those of the parser, also on error |
| Ledger.SortIDs | ledger/types/balances_json.go:32 | the same IDs, strictly ascending in the order of a dictionary |
| Ledger.Balances.Copy | ledger/types/balances_misc.go:38-46 | a new object with the same entries |
| Ledger.Balances.AddAmount | ledger/types/balances_math.go:17-23 | a new object with one amount added; the original is not changed |
| Ledger.Balances.SafeSub | ledger/types/balances_math.go:82-93 | refuses exactly negative amounts and amounts not covered, otherwise subtracts |
| Ledger.Balances.Positive | ledger/types/balances_misc.go:49-59 | exactly the positive entries |
| Ledger.Balances.Negative | ledger/types/balances_misc.go:62-72 | exactly the negative entries, negated |
| Ledger.Balances.AssetIDs | ledger/types/balances_misc.go:90-98 | the IDs of non-zero entries, each once |
| Ledger.Balances.PositiveAssets | ledger/types/balances_misc.go:101-109 | the IDs of positive entries, each once |
| Ledger.Balances.SelectPositive | ledger/types/balances_misc.go:26-35 | the amount of one asset, or zero if it is not positive |
| Ledger.Balances.Validate | ledger/types/balances_misc.go:10-23 | true exactly if every ID is valid and no disallowed negative amount occurs |
| Ledger.Balances.SubToZero | ledger/types/balances_math.go:95-108 | in any order, every asset ends with the remainder and surplus of its own subtraction |
| Ledger.Balances.SubBalToZero | ledger/types/balances_math.go:113-126 | the same for a single balance |
| Accounts.TakeToZeroCongruent | ledger/types/balances_math.go:113-126 | balance plus surplus equals result plus subtrahend, modulo 2^64, for all int64 values |
| Accounts.TakeToZeroConserves | ledger/types/balances_math.go:113-126 | and it does so exactly unless the difference exceeds 2^63 |
| Accounts.TakeToZeroClamps | ledger/types/balances_math.go:110-126 | for subtrahends that are not negative, positive amounts end at max(0, difference), others are unchanged |
| Accounts.NegativeIsNoOpIff | ledger/types/balances_math.go:95-108 | negative input changes nothing exactly if it is zero, and not the result exactly where no positive balance meets it |
| Accounts.NegativeAdds | ledger/types/balances_math.go:95-108 | taking -1 from 1 gives 2 |
| Migration.Client.Migrate | migration/migration.go:21-94 | the runner performs the planned calls up to the first that fails; if it succeeds, it has performed all |
| Migration.Client.GetCurrentVersion | migration/migration.go:153-165 | the greatest recorded version, or zero |
| MigrationProofs.Resumes | migration/migration.go:46-49 | a run plans exactly the files from the first unrecorded one on |
| MigrationProofs.AttemptsProgress | migration/migration.go:30-93 | any number of runs, each stopped anywhere, leave a prefix of the files recorded, each once, in order, and right after its statements 0, 1 and so on |
| MigrationProofs.NothingLeft | migration/migration.go:46-49 | once everything is recorded, a run calls nothing |
| MigrationProofs.RunsRecover | migration/migration.go:21-94 | an uninterrupted run after any interrupted ones records everything |
| MigrationProofs.RecordedRan | migration/migration.go:58-91 | after any interrupted runs, what the database executed right before a file was recorded is exactly that file's statements, in order |
| MigrationProofs.FreshRun | migration/migration.go:21-94 | an uninterrupted run on an empty database executes every statement of every file, once and in order |
| MigrationProofs.NeverRecordedTwice | migration/migration.go:80-91 | even if versions repeat or descend, no version is recorded twice |
| MigrationProofs.BreakIsLost | migration/migration.go:46-49 | stopped right before a file that breaks the order, no number of further runs, stopped anywhere, records it |
| MigrationProofs.RestartSafeIff | migration/migration.go:21-94 | restarting is safe exactly if versions are positive and strictly ascend in walk order |
| MigrationParser.ParseMigrationFile | migration/parser.go:27-88 | the statements of the line scan |
| MigrationParser.ParseDocument | migration/parser.go:54-87 | every document of marked blocks parses to its code, without comments and blank lines, divided at start markers and lower-case ends; only a lower-case end makes a statement without code |
| MigrationParser.StartMeaning | migration/parser.go:91-94 | a start marker is a line of two dashes that holds +start in any case |
| MigrationParser.UnclosedComment | migration/parser.go:46-72 | a comment still open at a marker: an end closes it, a start only if code is pending |
| MigrationParser.CommentsDoNotNest | migration/parser.go:100-115 | a second opening ends an open comment |
| MigrationParser.BlankLine | migration/parser.go:57-60 | lines of spaces and tabs are skipped |
| MigrationParser.EndMarkersOptional | migration/parser.go:68-72 | leaving out all end markers changes nothing exactly if every block that ends in lower case has code before its end and none after it |
| MigrationParser.EndMarkersCaseInsensitive | migration/parser.go:96-98 | respelling all end markers in lower case changes nothing exactly if every block that ends in another case has code before its end and none after it |
| MigrationParser.MarkersMatter | migration/parser.go:54-87 | documents that differ only in markers, one having all lower-case ends of the other, parse alike exactly if the blocks with the further ones have code before and none after |
| MigrationParser.SpellingShows | migration/parser.go:96-98 | for all start lines, end lines in another case and code: two statements that respelling the end runs together, and the empty one that it makes |
| MigrationParser.SpellingExample | migration/parser.go:96-98 | the same for one file |

## Left out

- Yield pools, `Price`, `calculateT`, `calculateK`, `calculateDelta` and the fee-less `SimulateSwap` dispatch: they rest on float64 powers and the clock.
- Lending interest, Redis, Kafka, Spanner, secrets, metrics, logging and the cache: I/O and wrappers.
- goccy/go-json: the decoder in front of the parser is a parameter that is assumed to accept flat objects of numbers as RFC 8259 defines them, with plain keys, no exponents and at most 300 digits before the point. In the JSON of a whole position, strings and integers are assumed to come back as they were. The regexp, sort and big packages appear as the functions they compute; `big.Int.Uint64` beyond 64 bits is modelled as the low bits, as that package implements it.
- A nil map inside `Balances`: it reads as empty; only `SafeSub` of zero could tell the difference. Nil `Balances` occur only as the blank copy.
- Stablecoin.ActivateStablecoinEquivalence: requires, as cleanup does, that no division by a power of ten panics in any iteration order. That happens where a currency that the call may divide for has an exponent, or for cleanup an exponent difference, of 64 or more (`Stablecoin.Exp10ZeroIff`); the state that such a panic leaves is not modelled.
- Positions.Position.Copy: `IsModified`, `Snapshot` and the validation of positions are left out; the model only says that their fields are copied.
- Pool fields other than assets, amounts, fees, factors and sequence; the decimal factors appear as the reals they convert to.
- ActivateProofs.ActivateConverts: speaks about requests with int64 headroom of one whole target unit, and assets with at most 18 decimals, because beyond that the program's arithmetic wraps.
- Arithmetic.ShareExact: the bound on the product is sufficient, not shown to be the least; exactness fails at 2^53 + 1.
- LiquidityProofs.AddToEmpty: within a 2^-52th part of the next integer it only says that the terms are rounded down or up, and not which; beyond a sum of 2^53 it says nothing.
- LiquidityProofs.RunBasePerShare: covers runs whose deposits and withdrawals stay in the range where the float path is exact, and a first deposit whose base and quote together stay below 2^53.
- SwapProofs.RunKeepsProduct: covers amounts and reserves below 2^63, where the int64 conversions do not wrap; carrying out a simulated swap is not in the repository, so it is composed from the pool's own operations.
- Migration.Client.Migrate: statements are abstract calls, so the split into DDL and DML, files that do not parse, creating the version table and failing version queries are not covered; a failing call may or may not have taken effect.
- MigrationParser.ParseDocument: documents with comments that are never closed or nest, markers inside comments, several end markers between two start markers, and end markers before the first start are not covered.
- `InterpretSpecialPrefix`, `SubAmountToZero`, key builders, option builders and comparison helpers: easy members.
