# Are You The One: evidence propagation, exhaustive solver, Monte Carlo matchings

This project models, in Dafny, the three computational pieces of the "Are You The
One" pairing-game tool and proves properties of them:

- **Evidence propagation** (`data_preprocessing.py`, module `DataPreprocessing`).
  The participant lists are lower-cased and the shorter one is padded with
  `dummy_woman_<n>` / `dummy_man_<n>` placeholders. A probability map and a
  `fixed` (certainty) map keyed by (man, woman) start at 0.5 / not fixed. Truth
  booths confirm or rule out pairs. A match ceremony with confirmed pairs has
  its score lowered, and a score that reaches 0 blacks out the other listed
  pairs. Normalisation then spreads each unresolved man's mass uniformly over
  his non-fixed cells. The two maps live in the class `ConstraintStore`, whose
  methods update them in place. Each method is proved equal to a function on
  the `Store` value (`BoothStep`, `CeremonyStep`, `NormalizeSpec`, ...), and the
  lemmas state what those functions promise.
- **Exhaustive solver** (`ayto_solver.py`, module `AytoSolver`). It has three
  validity checks on a candidate pairing: the truth booths, the confirmed
  matches, and the ceremony scores through `match_score`. It enumerates
  `combinations(women, len(men))` x `permutations` in itertools order, and its
  search collects valid pairings and stops at `limit`. The search method is
  proved to return exactly the first max(limit, 1) valid candidates of that
  enumeration. Lemmas prove this sound (each result passes the checks and is a
  matching of the men to women of the list) and complete (every valid matching
  of distinct men to distinct women is enumerated).
- **Monte Carlo matchings** (`Split/monte_carlo.py`, module `MonteCarlo`). The
  men are split into those with a confirmed match and the rest. The pool holds
  the unclaimed women. In each iteration every remaining man draws a distinct
  woman from what is left of the pool, and the resulting matching is tallied.
  The weighted random draw is modelled as an arbitrary choice (`:|`) among the
  women that `np.random.choice` could return: a pool woman with positive
  weight, or any pool woman when the weights sum to 0.

Shared modules: `Names` (ASCII lower-casing, decimal numbering of placeholders),
`Seqs` (duplicate-free sequences and multiset facts), `Season` (pairs, truth
booths, ceremonies, the "confirmed match" test on the two maps).

Probabilities are Dafny `real`s. The source writes 0.5, 0.0, 1.0 and 1/k
(data_preprocessing.py:107). It stores the nearest double to 1/k, which is
rounded whenever k is not a power of two; the model stores the exact 1/k. No
comparison the code makes answers differently on the rounded value: the
`== 1.0` tests (data_preprocessing.py:98, 205, 215; Split/monte_carlo.py:23)
also require the fixed flag, so the only 1.0 they can meet is one a truth booth
wrote exactly, and the zero-sum test (Split/monte_carlo.py:41) is false as soon
as any weight is positive, rounded or not.

Where the code departs from the game's usual rules, the model follows the code:
- A blackout fires only when at least one listed pair is already a confirmed
  match (data_preprocessing.py:207). A ceremony scored 0 with no confirmed pair
  is left alone (`ZeroScoreWithoutConfirmedIsNoBlackout`).
- The adjusted score overwrites the ceremony's score. The model returns the
  ceremonies with their overwritten scores.
- The solver always draws its candidates from `women`. With more men than
  women it returns nothing. It does not lower-case identifiers.
- The solver reads the no-pair label under the key `"no_pair:"`, colon included.
- Patience, heuristic scoring and the minimum-evidence and uniqueness
  strategies do not exist in the code, so they are not modelled.

## Model

| member | source | states |
|---|---|---|
| `Names.NatToStringInjective` | data_preprocessing.py:24 | distinct placeholder numbers have distinct decimal notations |
| `DataPreprocessing.DummyNamesDistinct` | data_preprocessing.py:23-30 | placeholders of one side with different numbers are different names |
| `DataPreprocessing.BalanceParticipants` | data_preprocessing.py:11-31 | both lists get the length of the longer one; the original names, lower-cased, stay a prefix in order; position i past the original length holds `dummy_<side>_<i - len + 1>` |
| `DataPreprocessing.InitialStore` | data_preprocessing.py:46-53 | the keys are exactly men x women, in both maps; every probability is 0.5 and every fixed flag false |
| `DataPreprocessing.ConstraintStore.Init` | data_preprocessing.py:40-54 | the constructor builds, over the lower-cased lists, exactly the initial store |
| `DataPreprocessing.MatchBoothEffect` | data_preprocessing.py:67-80 | a confirmed booth sets its cell to (1.0, fixed), every other cell of its man's row and its woman's column to (0.0, fixed), and leaves every cell outside both unchanged |
| `DataPreprocessing.NoMatchBoothEffect` | data_preprocessing.py:81-84 | a rejected booth sets its cell to (0.0, fixed) and changes no other cell |
| `DataPreprocessing.ConstraintStore.ExcludeOthers` | data_preprocessing.py:71-80 | one key scan sets every other key of the row (or column) to (0.0, fixed) and leaves the rest |
| `DataPreprocessing.ConstraintStore.ApplyBooth` | data_preprocessing.py:63-84 | one booth updates the maps in place as `BoothStep` says |
| `DataPreprocessing.ConstraintStore.UpdateTruthBooths` | data_preprocessing.py:56-86 | the booths are applied in list order (`ApplyBooths`) |
| `DataPreprocessing.BoothPreservesResolved` | data_preprocessing.py:62-84 | each booth keeps the invariant: a cell at 1.0 is fixed and every other cell in its row and column is (0.0, fixed) |
| `DataPreprocessing.ApplyBoothsPreservesResolved` | data_preprocessing.py:62-84 | the invariant holds after any sequence of booths |
| `DataPreprocessing.BoothsOneMatchPerLine` | data_preprocessing.py:62-84 | after the truth booths no row and no column holds two cells at 1.0 |
| `DataPreprocessing.Confirmed` | data_preprocessing.py:202-206 | the count of confirmed listed pairs is at most the number of pairs, and 0 exactly when no listed pair is a confirmed match |
| `DataPreprocessing.BlackoutCells` | data_preprocessing.py:213-217 | the cells a blackout writes are exactly the lower-cased listed pairs that are not confirmed matches |
| `DataPreprocessing.CeremonyStepEffect` | data_preprocessing.py:200-217 | without a confirmed pair nothing changes; otherwise the score becomes max(score - confirmed, 0); the maps change only on a blackout; confirmed cells and unlisted cells keep their values; on a blackout every unconfirmed listed pair is (0.0, fixed) |
| `DataPreprocessing.ZeroScoreWithoutConfirmedIsNoBlackout` | data_preprocessing.py:207-211 | a ceremony scored 0 with no confirmed pair changes neither the maps nor its score |
| `DataPreprocessing.CeremonyPreservesResolved` | data_preprocessing.py:200-217 | each ceremony keeps the propagation invariant |
| `DataPreprocessing.CeremoniesOneMatchPerLine` | data_preprocessing.py:195-217 | after booths and then ceremonies no row and no column holds two cells at 1.0 |
| `DataPreprocessing.ConstraintStore.CountConfirmed` | data_preprocessing.py:202-206 | the counting loop computes `Confirmed` |
| `DataPreprocessing.ConstraintStore.ZeroUnlessSure` | data_preprocessing.py:215-217 | one blackout step writes (0.0, fixed) unless the cell is a confirmed match |
| `DataPreprocessing.ConstraintStore.Blackout` | data_preprocessing.py:213-217 | the blackout loop forces exactly `BlackoutCells` to (0.0, fixed) |
| `DataPreprocessing.ConstraintStore.ApplyCeremony` | data_preprocessing.py:201-217 | one ceremony updates the maps and the score as `CeremonyStep` says |
| `DataPreprocessing.ConstraintStore.UpdateCeremonies` | data_preprocessing.py:200-217 | the ceremonies are applied in list order, each with its adjusted score |
| `DataPreprocessing.Possible` | data_preprocessing.py:105 | the possible women are exactly the listed women whose cell with the man is not fixed |
| `DataPreprocessing.Share` | data_preprocessing.py:106-107 | the new value is in (0, 1] and k copies of it make 1 |
| `DataPreprocessing.NormalizeSpec` | data_preprocessing.py:88-111 | the fixed map and the keys are unchanged; fixed cells and the rows of men with a confirmed match keep their values |
| `DataPreprocessing.NormalizedRowIsShare` | data_preprocessing.py:104-109 | every non-fixed cell of a man without a confirmed match becomes 1/k, k the length of his list of possible women (repeats of the women's list kept) |
| `DataPreprocessing.NormalizedRowSumsToOne` | data_preprocessing.py:104-109 | his values summed over his list of possible women make exactly 1 |
| `DataPreprocessing.NormalizeEmptyRowUnchanged` | data_preprocessing.py:106 | a man with no non-fixed cell keeps his whole row |
| `DataPreprocessing.ConstraintStore.SpreadRow` | data_preprocessing.py:108-109 | the inner loop writes p into the man's listed cells and nothing else |
| `DataPreprocessing.ConstraintStore.Normalize` | data_preprocessing.py:88-111 | the normalisation loop computes `NormalizeSpec` in place |
| `DataPreprocessing.TallyPairs` | data_preprocessing.py:147-151 | one ceremony's pairs are added to an exact tally |
| `DataPreprocessing.CountPairOccurrences` | data_preprocessing.py:141-152 | the keys are exactly the listed pairs (lower-cased); each count is that pair's number of occurrences; the counts add up to the number of listed pairs |
| `DataPreprocessing.Preprocess` | data_preprocessing.py:189-220 | balance, initialise, booths, ceremonies, normalise: the balanced lists are the lower-cased originals padded with numbered placeholders; the store is the normalisation of the ceremonies applied after the booths to the initial store over those lists; before normalisation it satisfies the propagation invariant; the ceremonies come back with adjusted scores |
| `AytoSolver.IsValidTruthBooth` | ayto_solver.py:7-12 | true iff for every booth "the pairing maps the man to the woman" equals `is_match` (true for no booths) |
| `AytoSolver.RespectsPerfectMatches` | ayto_solver.py:14-19 | true iff every confirmed booth's man is paired with its woman |
| `AytoSolver.TruthBoothImpliesPerfectMatches` | ayto_solver.py:51-54 | the first check implies the second, so the second never rejects |
| `AytoSolver.MatchScore` | ayto_solver.py:21-27 | the score is at most the size of the pairing and at most the number of distinct ceremony pairs |
| `AytoSolver.MatchScoreZero` | ayto_solver.py:21-27 | the score is 0 iff every pairing entry listed at the ceremony has the no-pair woman |
| `AytoSolver.MatchScoreFull` | ayto_solver.py:21-27 | with no no-pair label and every entry listed, the score is the size of the pairing |
| `AytoSolver.IsValidCeremonies` | ayto_solver.py:29-34 | true iff every ceremony's score equals its match score (true for no ceremonies) |
| `AytoSolver.Zip` | ayto_solver.py:49 | zipping equally long lists gives a pairing whose domain is the men |
| `AytoSolver.ZipWellShaped` | ayto_solver.py:47-49 | a candidate drawn from the women yields a pairing of all the men to listed women, distinct when the list has no duplicates |
| `AytoSolver.CombinationsShape` | ayto_solver.py:47 | each combination has k elements, all from the list |
| `AytoSolver.Permutations` | ayto_solver.py:48 | each permutation is a rearrangement of its input |
| `AytoSolver.PermutationsComplete` | ayto_solver.py:48 | every rearrangement is enumerated |
| `AytoSolver.SelectIsCombination` | ayto_solver.py:47 | every order-preserving selection of the women is one of their combinations |
| `AytoSolver.FindValidSolutions` | ayto_solver.py:39-62 | the search returns the first max(limit, 1) valid candidates in enumeration order, stopping once it has `limit` |
| `AytoSolver.FindValidSolutionsSound` | ayto_solver.py:47-62 | at most max(limit, 1) results; each passes all three checks and pairs every man with a listed woman, distinct women when the list has no duplicates; fewer than max(limit, 1) only when all valid candidates are returned; none when there are more men than women |
| `AytoSolver.MoreMenThanWomenNoSolution` | ayto_solver.py:47 | with more men than women there is no candidate |
| `AytoSolver.SearchComplete` | ayto_solver.py:47-58 | every valid matching of distinct men to distinct listed women is among the solutions of the enumeration |
| `AytoSolver.EmptyResultMeansNoSolution` | ayto_solver.py:45-62 | an empty result means no such matching passes the checks |
| `MonteCarlo.FirstSure` | Split/monte_carlo.py:21-26 | the first woman with a confirmed match, or none exactly when the man has no confirmed match among the women |
| `MonteCarlo.FirstSureIsFirst` | Split/monte_carlo.py:22-26 | no confirmed match of the man comes earlier in the list than the one found |
| `MonteCarlo.ScanForMatch` | Split/monte_carlo.py:21-26 | the scan with `break` finds exactly `FirstSure` |
| `MonteCarlo.FixedPairs` | Split/monte_carlo.py:18-26 | the fixed men are exactly those with a confirmed match, each mapped to his first one |
| `MonteCarlo.Unresolved` | Split/monte_carlo.py:19-28 | the remaining men are exactly those without a confirmed match |
| `MonteCarlo.SplitFixed` | Split/monte_carlo.py:18-28 | the splitting loop computes `FixedPairs` and `Unresolved` (list order kept) |
| `MonteCarlo.SplitPartitions` | Split/monte_carlo.py:18-28 | every man is in exactly one of the two |
| `MonteCarlo.RemainingWomen` | Split/monte_carlo.py:29 | the pool holds each unclaimed woman as often as the list does and no claimed woman |
| `MonteCarlo.RemainingWomenMembers` | Split/monte_carlo.py:29 | the pool's members are the listed women not claimed by a fixed pair, and it has no duplicates when the list has none |
| `MonteCarlo.RemoveFirst` | Split/monte_carlo.py:46 | `list.remove` takes out exactly one occurrence |
| `MonteCarlo.ZeroSumIffAllZero` | Split/monte_carlo.py:40-41 | non-negative weights sum to 0 exactly when all are 0 |
| `MonteCarlo.DrawPossible` | Split/monte_carlo.py:40-44 | a non-empty pool always offers a woman to draw, through the uniform fallback when the weights sum to 0 |
| `MonteCarlo.SampleIteration` | Split/monte_carlo.py:35-46 | the matching covers the fixed and the remaining men; fixed men keep their partner; each remaining man gets a pool woman, distinct ones when the pool has no duplicates; each draw was a possible choice from the pool left at that turn, and (for distinct remaining men) the k-th remaining man holds the k-th draw |
| `MonteCarlo.Tally` | Split/monte_carlo.py:48-49 | one is added to the cell of each pair of the matching |
| `MonteCarlo.TalliedRow` | Split/monte_carlo.py:48-49 | over women without duplicates, a tally adds exactly one to each matched man's row sum |
| `MonteCarlo.InitialCountsInvariant` | Split/monte_carlo.py:32 | counts at 0 over men x women are the state after no iteration |
| `MonteCarlo.TallyKeepsInvariant` | Split/monte_carlo.py:48-49 | one iteration's tally keeps the count invariant with one more iteration |
| `MonteCarlo.RunIterations` | Split/monte_carlo.py:32-49 | after n iterations: fixed men's rows hold n at their partner and 0 elsewhere; remaining men never count a claimed woman; every man's row sums to n |
| `MonteCarlo.MonteCarloSimulation` | Split/monte_carlo.py:5-53 | the counts satisfy that invariant for n iterations and every frequency is its count divided by n; the model also returns the counts, which the source keeps local |
| `MonteCarlo.FullyResolvedFrequencies` | Split/monte_carlo.py:34-52 | with no remaining man, each fixed pair has frequency 1 and every other cell 0 |

## Left out

- File loading (`load_data`, the path and loading in `preprocessing`, the
  blackout message printed in `preprocessing`, the
  loading in the solver's main block): file I/O and console output. The
  season records are parameters.
- Plotting (`plot_probability_matrix`, `plot_pair_counts`,
  `plot_simulation_matrix`) and the `__main__` blocks: user interface and
  driver code.
- The probability distribution of `np.random.choice` and any statistical claim
  about the frequencies: randomness. A draw is any woman the weighted choice
  could return.
- numpy normalisation of the weights beyond the zero-sum test: float numerics.
  Weights are exact reals.
- `Names.Lower`: only ASCII letters are lower-cased. Python's `str.lower`
  also folds non-ASCII letters.
- `MonteCarlo.MonteCarloSimulation`: requires the weights of the remaining men
  over the pool to be non-negative, as numpy does. With n > 0 it also requires
  the pool to be at least as large as the number of remaining men, since
  `np.random.choice` fails on an empty pool. With n = 0 it requires that there
  is no cell, because the final division by 0 would fail.
- `DataPreprocessing.NormalizedRowSumsToOne`: the sum runs over the list of
  possible women, as the source's count does. Two listed women whose names
  lower-case to the same name share one cell, which the sum then counts twice;
  the sum over the man's distinct cells is then below 1. The sum is exactly 1
  in the model's reals; in the source it is 1 only up to double rounding (ten
  copies of `1.0/10` added in order give 0.9999999999999999).
- `MonteCarlo.TalliedRow`: stated over a list of women without duplicates, for
  the same reason as `RunIterations` below.
- `MonteCarlo.RunIterations`: the row sums equal n only when the women's list
  has no duplicates. A duplicated woman would be counted twice in a sum over
  the list.
- `MonteCarlo.SampleIteration`: the drawn women are proved distinct only when
  the pool has no duplicates. With duplicates, `list.remove` can leave a
  second copy in the pool.
- `AytoSolver.FindValidSolutionsSound`: the returned partners are proved
  distinct only when `women` has no duplicates.
- `AytoSolver.SearchComplete`: stated for distinct men and distinct women. With
  duplicate men `dict(zip(...))` keeps only a man's last partner.
