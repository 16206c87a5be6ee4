# NAE3SAT generator, modelled in Dafny

This project models the NAE3SAT problem generator in `utilities/nae3sat_generator.py`. The generator produces random not-all-equal 3-SAT instances and encodes them as spin-valued (±1) binary quadratic models (BQMs). It has three functions:

- `kmc_sat` draws a `num_clauses × k` table of variable indices, with `k` distinct indices per row. It also draws a table of the same shape holding ±1 literal signs.
- `kmc_sat_to_bqm` starts from an empty SPIN model. For every clause, and every pair of positions `j < i` in it, it adds the interaction `(vars[i], vars[j])` with bias `signs[i] * signs[j]`.
- `nae3sat` picks a clause count in `range(m - 1, m + 2)`, where `m = int(rho * num_variables)`. It calls `kmc_sat` with `k = 3` and encodes the result.

The files:

- `numpy_random.dfy` (module `NumpyRandom`): the two numpy draws the generator uses.
  - Sampling `k` of `range(n)` without replacement.
  - Filling a table with choices from `[-1, 1]`.

  Both are nondeterministic methods: any result that meets the draw's guarantees may come back.
- `bqm.dfy` (module `DimodBqm`): the part of dimod's `BinaryQuadraticModel` that the encoder relies on.
  - A pure value `Model` holds the linear biases, the quadratic biases keyed by unordered pair, and the offset.
  - The class `BinaryQuadraticModel` has `AddInteraction` and `AddInteractionsFrom`. Its methods are proved equal to pure functions on `Model`.
  - The spin energy of a model, and how adding interactions changes it.
- `nae3sat_generator.dfy` (module `Nae3satGenerator`): the three functions of the generator, plus the pure fold `Encode` that specifies the encoder.
  - `KmcSatToBqm` is proved to return exactly `Encode` of the zipped rows.
  - `Encode` is characterised by an independent definition: the bias of a pair is the sum of the sign products over the clauses that contain both variables. From this follows that clause order does not matter.
- `nae3sat_energy.dfy` (module `Nae3satEnergy`): the semantic promises of the docstrings.
  - A three-variable clause has energy 3 when its three literals are equal and -1 otherwise. So an instance reaches its lowest possible energy, minus the number of clauses, exactly when every clause is not-all-equal.
  - A four-variable clause (k = 4, "2in4 SAT") has its lowest energy, -2, exactly when two literals are +1 and two are -1.

Errors are modelled as results rather than excluded:
- numpy's errors for a negative table dimension, for drawing from a population `range(n)` with `n <= 0`, and for a sample larger than the population;
- the IndexError of reading past the end of a sign row narrower than the variable row.

Modelling assumption: dimod's `add_interaction` ADDS the given bias to the bias already stored for the pair. It does not overwrite it. `WithInteraction` states this, and it is why biases accumulate across clauses.

## Model

| member | source | states |
|---|---|---|
| NumpyRandom.ChoiceWithoutReplacement | utilities/nae3sat_generator.py:34 | For any integer `n`, the draw fails exactly when `size > n`. So for a negative `n` even an empty sample fails. The error is the non-positive-population one when `n <= 0` and `size != 0`, and the sample-too-large one otherwise. On success it returns `size` pairwise-distinct values, each in `[0, n)`. |
| NumpyRandom.ChoiceOfSigns | utilities/nae3sat_generator.py:35 | A fresh `rows × cols` table, every entry of which is -1 or 1. |
| NumpyRandom.Population | utilities/nae3sat_generator.py:34 | The population `range(n)` drawn from has exactly `n` members, the integers in `[0, n)`. |
| Nae3satGenerator.KmcSat | utilities/nae3sat_generator.py:8-36 | Defaults `num_clauses = 1`, `k = 3`. Fails exactly when `num_clauses` or `k` is negative, or there is at least one clause and `k > num_variables`, for any integer `num_variables`. The error is the negative-dimension one in the first case. Otherwise it is the non-positive-population one when `k > 0` and `num_variables <= 0`, and the sample-too-large one in the remaining cases. On success both tables are newly allocated. The clause table has `num_clauses × k` entries in `[0, num_variables)`, distinct within each row, and the sign table has the same shape with every entry ±1. |
| Nae3satGenerator.KmcSatToBqm | utilities/nae3sat_generator.py:39-59 | Fails with an index error exactly when some row pair is zipped, the variable rows have two or more columns, and the sign rows are narrower. Otherwise the zipped clauses are well formed, and the returned model is newly allocated and equals the fold `Encode` of those clauses, in order, from an empty model. |
| Nae3satGenerator.ZippedWellFormed | utilities/nae3sat_generator.py:51 | When the sign rows are at least as wide as variable rows of two or more columns, and the variables within each row are pairwise distinct, every clause `zip` produces is well formed. |
| Nae3satGenerator.AddClauses | utilities/nae3sat_generator.py:50-58 | The loop over the zipped rows leaves a newly allocated model equal to `Encode` of those clauses, in order. |
| Nae3satGenerator.Nae3sat | utilities/nae3sat_generator.py:62-86 | For any integer `num_variables`, the call succeeds when `m >= 1` and there are at least 3 variables. When `m < -1` it fails with the negative-dimension error. When `m >= 2` it fails with the non-positive-population error if `num_variables <= 0`, and with the sample-too-large error if there are 1 or 2 variables. Each error occurs only under those conditions, with `m <= 0` for the first and `m >= 0` for the others. On success the model is newly allocated and is `Encode` of some instance with between `m - 1` and `m + 1` clauses, each of three distinct variables in `range(num_variables)` with ±1 signs. |
| Nae3satGenerator.ClauseTermsCount | utilities/nae3sat_generator.py:53-57 | A clause of `k` variables contributes exactly `k(k-1)/2` interaction entries. |
| Nae3satGenerator.ClauseTermsAt | utilities/nae3sat_generator.py:53-57 | Position pair `j < i` gives the entry `(vars[i], vars[j]): signs[i] * signs[j]`, at index `i(i-1)/2 + j` of the dictionary. |
| Nae3satGenerator.TermsUpToShape | utilities/nae3sat_generator.py:53-57 | No entry pairs a variable with itself. When the signs are ±1, every entry's coefficient is ±1. |
| Nae3satGenerator.ClauseTermsShape | utilities/nae3sat_generator.py:52-57 | The dictionary of a well-formed clause has no self-loops and coefficients in {-1, 1} when the signs are ±1. |
| Nae3satGenerator.PairsClosedForm | utilities/nae3sat_generator.py:55-56 | The number of pairs `j < i < n` visited by the comprehension is `n(n-1)/2`. |
| Nae3satGenerator.ClauseVariables | utilities/nae3sat_generator.py:52-57 | A variable is an endpoint of a clause's dictionary exactly when the clause has at least two variables and contains it. |
| Nae3satGenerator.ClauseInteractions | utilities/nae3sat_generator.py:52-57 | A clause's dictionary has an entry for pair `{u, v}` exactly when the clause contains both. The total bias it gives the pair is the product of their two signs, or 0 when it does not contain both. |
| Nae3satGenerator.EncodeQuadratic | utilities/nae3sat_generator.py:50-58 | The final model interacts `{u, v}` exactly when some clause contains both. The pair's bias is the sum, over those clauses, of the product of the two signs. |
| Nae3satGenerator.EncodeHasPair | utilities/nae3sat_generator.py:50-58 | The final model has an interaction for `{u, v}` exactly when some clause contains both variables. |
| Nae3satGenerator.EncodeBias | utilities/nae3sat_generator.py:50-58 | The final bias of every pair equals the reference sum, over the clauses, of the bias each clause gives it. |
| Nae3satGenerator.EncodeLinear | utilities/nae3sat_generator.py:50-58 | The offset is 0. A variable is in the model exactly when some clause of at least two variables contains it, and its linear bias is 0. |
| Nae3satGenerator.EncodeEmpty | utilities/nae3sat_generator.py:50-51 | The model is empty exactly when no clause has two variables. In particular, an empty clause list yields an empty model. |
| Nae3satGenerator.PairBiasConcat | utilities/nae3sat_generator.py:51-58 | The reference bias of a pair over two clause lists, one after the other, is the sum of the two. |
| Nae3satGenerator.PairBiasPermutation | utilities/nae3sat_generator.py:51-58 | Reordering the clauses leaves the reference bias of every pair unchanged. |
| Nae3satGenerator.SameQuadratic | utilities/nae3sat_generator.py:51-58 | Two clause lists that are permutations of each other give the same interactions with the same biases. |
| Nae3satGenerator.SameLinear | utilities/nae3sat_generator.py:51-58 | Two clause lists that are permutations of each other give the same variables, all with linear bias 0. |
| Nae3satGenerator.EncodeOrderIndependent | utilities/nae3sat_generator.py:51-58 | Two clause lists that are permutations of each other encode to the same model. |
| DimodBqm.WithInteractions | utilities/nae3sat_generator.py:52-58 | Adding a list of interactions keeps the offset and every existing linear bias. It adds each new endpoint with linear bias 0, creates exactly the pairs named, and adds to each pair's bias the sum of the biases given for it. |
| DimodBqm.BinaryQuadraticModel.constructor | utilities/nae3sat_generator.py:50 | A new SPIN model is empty: no variables, no interactions, offset 0. |
| DimodBqm.BinaryQuadraticModel.AddInteraction | utilities/nae3sat_generator.py:52 | Adding one interaction makes both endpoints variables and adds the bias to the pair's existing bias, which is 0 when the pair was absent. |
| DimodBqm.BinaryQuadraticModel.AddInteractionsFrom | utilities/nae3sat_generator.py:52-58 | Adding a dictionary in place leaves the model equal to `WithInteractions` of the old model and the entries. |
| DimodBqm.EndpointsConcat | utilities/nae3sat_generator.py:52-58 | The endpoints of two entry lists, one after the other, are the union of their endpoints. |
| DimodBqm.EdgesConcat | utilities/nae3sat_generator.py:52-58 | The pairs named by two entry lists, one after the other, are the union of the pairs each names. |
| DimodBqm.BiasConcat | utilities/nae3sat_generator.py:52-58 | The bias two entry lists give a pair, one after the other, is the sum of what each gives. |
| DimodBqm.LinearEnergyWithInteraction | utilities/nae3sat_generator.py:52 | Adding one interaction leaves the linear part of the spin energy unchanged, because new variables get linear bias 0. |
| DimodBqm.QuadraticEnergyWithInteraction | utilities/nae3sat_generator.py:52 | Adding one interaction raises the quadratic part of the spin energy by `bias * s(u) * s(v)`. |
| DimodBqm.EnergyWithInteraction | utilities/nae3sat_generator.py:52 | Adding one interaction raises the spin energy by `bias * s(u) * s(v)`. |
| DimodBqm.EnergyWithInteractions | utilities/nae3sat_generator.py:52-58 | Adding a list of interactions raises the spin energy by the sum of their contributions. |
| Nae3satEnergy.ClauseTermsOfThree | utilities/nae3sat_generator.py:53-57 | For three variables, the dictionary is the entries for position pairs (1, 0), (2, 0) and (2, 1), in that order. |
| Nae3satEnergy.PairwiseProducts | utilities/nae3sat_generator.py:15-16 | For three ±1 values, the sum of their pairwise products is 3 when all three are equal and -1 otherwise. |
| Nae3satEnergy.ClauseEnergyNae | utilities/nae3sat_generator.py:15-16 | For ±1 signs and spins, a three-variable clause has energy 3 when its signed literals are all equal and -1 when they are not all equal. |
| Nae3satEnergy.TermsUpToThree | utilities/nae3sat_generator.py:55-56 | The entries for the first three positions are those for (1, 0), (2, 0) and (2, 1), in that order. |
| Nae3satEnergy.ClauseTermsOfFour | utilities/nae3sat_generator.py:53-57 | For four variables, the dictionary is the entries of the first three positions followed by those for (3, 0), (3, 1) and (3, 2). |
| Nae3satEnergy.ClauseEnergyOfFour | utilities/nae3sat_generator.py:53-57 | A four-variable clause's energy is the sum of the six pairwise products of its literals. |
| Nae3satEnergy.PairwiseProductsOfFour | utilities/nae3sat_generator.py:16-18 | For four ±1 values, the sum of their six pairwise products is -2 when two are +1 and two are -1, 6 when all four are equal, and 0 otherwise. |
| Nae3satEnergy.ClauseEnergyTwoInFour | utilities/nae3sat_generator.py:16-18 | For ±1 signs and spins, a four-variable clause has energy at least -2. It equals -2 exactly when two literals are +1 and two are -1, 6 when all four are equal, and 0 otherwise. |
| Nae3satEnergy.EncodeEnergy | utilities/nae3sat_generator.py:50-59 | The spin energy of the encoded model is the sum of the clause energies. |
| Nae3satEnergy.ClausesEnergyCounts | utilities/nae3sat_generator.py:66-68 | For an NAE3SAT instance, the sum of the clause energies is `4 * violated - clauses`, and no clause is violated exactly when every clause is not-all-equal. |
| Nae3satEnergy.NaeGroundState | utilities/nae3sat_generator.py:66-68 | For an NAE3SAT instance, the model's energy lies between `-clauses` and `3 * clauses`, and equals `4 * violated - clauses`. It reaches `-clauses` exactly when every clause is not-all-equal. |
| Nae3satEnergy.Violated | utilities/nae3sat_generator.py:66-68 | The number of clauses whose literals are all equal is at most the number of clauses. |

## Left out

- Seeding and reproducibility. `np.random.RandomState(seed)` is not modelled. Each draw is a nondeterministic choice constrained only by what numpy guarantees about it. When a seed is given, `nae3sat` and `kmc_sat` each build a generator from it, so their draws are correlated; this is not captured.
- The floating-point `rho` and the truncation `int(rho * num_variables)`. `Nae3sat` takes the truncated value `m` as an integer parameter.
- Number representations. numpy stores indices and signs as 64-bit integers, and dimod stores biases as floating-point numbers. The model uses unbounded integers for all three. With ±1 signs, which is all `kmc_sat` draws, every bias is a sum of ±1 terms, at most one per clause. It is then an integer far below the range in which floating point stops being exact, so the model is exact.
- KmcSatToBqm: accepts any integer sign table and states exact equality with `Encode` over unbounded integers. For sign tables with other entries, the source's int64 wrap-around of `signs[i] * signs[j]` and the rounding of float biases are not modelled.
- KmcSatToBqm: requires the variables within each row to be distinct. `WithInteraction` and `AddInteraction` require two different variables, and dimod's handling of a self-loop is not modelled. `kmc_sat` always draws the variables of a row pairwise distinct.
- dimod's vartype conversion and storage layout.
- ChoiceWithoutReplacement: takes a non-negative sample size. `kmc_sat` draws only after `np.zeros` has rejected a negative `k`, so numpy's error for a negative sample size is never reached from the generator.
- The order in which dimod lists variables and interactions. Maps in the model are unordered, so two models are equal when they hold the same biases, whatever their insertion order.
- The 2-in-4 reading (k = 4) is proved per clause only. No whole-instance lemma like `NaeGroundState` is stated for it, since `nae3sat` only builds three-variable clauses.
- `nae3sat_example.py` (annealing with an external sampler, plotting, writing PNG files) and `tests/test_nae3sat.py` (a subprocess test of printed output). Both are glue around external libraries, with no logic of the repository's own.
