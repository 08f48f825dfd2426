# SimData: treatment-effect assembly and session state, in Dafny

This project models the bookkeeping core of `SimData`, a simulator of
observational datasets for causal inference. The model covers:

- how the simulator turns its four regime flags (constant, heterogeneity,
  negative, no_treatment) into an option list of codes 1..4;
- how it rejects an empty configuration and checks a caller-supplied partition
  index;
- how it fills a zero-initialised theta buffer in place, one masked assignment
  per regime;
- how the heterogeneous regime selects covariate columns and weights with the
  same mask;
- how the realized effect `theta * D` and the outcome
  `y = theta * D + g_0(X) + U` are composed;
- in which order the session's methods set and read its fields.

Numbers are Dafny `real`. Every random draw of the simulator comes in as an
argument: the multivariate-normal covariates, the U(0,1) weights, the
Bernoulli coins, the drawn partition and column indexes, the U(-1,0) draws and
the N(0,1) noise. Preconditions give the shape of every draw. They also give the range of the bounded draws: the weights, the confounded
propensities and the coins in [0, 1], and the negative draws in [-1, 0].

Modules, leaves first:

- `Regimes` (regimes.dfy): regime codes, the `Flags` record, the reference
  option list `OptionList` and the imperative `BuildOptions`.
- `Labels` (labels.dfy): `Count` (numpy's `np.sum(idx == c)`), and `DrawAt`,
  the value a masked assignment of a draw vector writes at a position.
- `MaskedFill` (masked_fill.dfy): the three in-place forms of
  `theta[idx == c] = ...` over an `array<real>`.
- `TreatmentEffect` (treatment_effect.dfy): index choice and validation
  (`ChooseIndex`), the reference theta (`ThetaAt`, `Theta`), the in-place
  fill (`FillTheta`), and the properties of theta.
- `Columns` (columns.dfy): mask selection `Select`, `Dot`, the masked-sum
  reference `MaskedDot`, the heterogeneous linear index, and the diminishing
  weights of the baseline.
- `Assignment` (assignment.dfy): the propensity of random and confounded
  mode, and the Bernoulli draw.
- `Outcome` (outcome.dfy): the realized effect and the outcome.
- `Simulation` (sim_data.dfy): the `SimData` class. Its ghost flags
  `hasCovariates`, `hasAssignment` and `hasEffect` record which generated
  fields exist. The preconditions of each method state the call order the
  simulator depends on.

Two behaviours of `SimData` worth knowing:

- A predefined index may hold any integers. The code does not check that they
  are active regime codes. A position whose label is not an active code keeps
  0.
- The heterogeneous column index `r_idx` is drawn from the active options,
  not from all four codes. The model takes any length-k column index, and
  the selection lemmas hold whatever labels it holds.

## Model

| member | source | states |
|---|---|---|
| Regimes.BuildOptions | SimulateData.py:184-192 | appending one code per true flag gives exactly the codes of the true flags (1 constant, 2 heterogeneity, 3 negative, 4 no_treatment), strictly increasing, equal to the reference list, and empty exactly when every flag is false |
| Regimes.KeepActive | SimulateData.py:184-192 | filtering a code list keeps exactly the active codes and preserves strict increase |
| Regimes.OptionListExact | SimulateData.py:184-195 | the reference option list has exactly the active codes among 1..4, in increasing order without duplicates, and is empty exactly when no flag is on |
| Regimes.IncreasingUnique | SimulateData.py:184-192 | two strictly increasing lists with the same elements are equal, so the appended list is determined by the flags |
| TreatmentEffect.ChooseIndex | SimulateData.py:194-206 | an empty option list is refused with the no-regime error; otherwise a supplied index is used only if it is an ndarray of length N, and anything else supplied is refused; with no supplied index the drawn index is used, has length N, and every entry is an option |
| TreatmentEffect.FillTheta | SimulateData.py:208-250 | the buffer after the four masked assignments equals the reference theta: length N; 0.2 where the label is 1 and constant is on; the standardized vector's entry at the same position where the label is 2 and heterogeneity is on; the next U(-1,0) draw where the label is 3 and negative is on; 0 where the label is 4 or names no active regime |
| TreatmentEffect.ThetaBounds | SimulateData.py:208-248 | every theta lies within any interval that holds 0, 0.2, the heterogeneous vector and the negative draws |
| TreatmentEffect.ThetaRange | SimulateData.py:224-245 | with the standardized vector in [0.1, 0.3] and the negative draws in [-1, 0], every theta lies in [-1, 0.3] |
| TreatmentEffect.OnlyNegativeInRange | SimulateData.py:244-245 | with only negative on, every theta lies in [-1, 0], whatever labels the index holds |
| TreatmentEffect.NegativeLabelsInRange | SimulateData.py:244-245 | with negative on and its draws in [-1, 0], every position labelled 3 has theta in [-1, 0], whichever other regimes are on |
| TreatmentEffect.OnlyConstantEverywhere | SimulateData.py:211-217 | with only constant on and the index drawn from the options, theta is 0.2 at every position |
| TreatmentEffect.OnlyNoTreatmentZero | SimulateData.py:208-248 | with only no_treatment on and the index drawn from the options, theta is 0 at every position |
| TreatmentEffect.NegativeDrawsInOrder | SimulateData.py:244-245 | a later label-3 position receives a later draw, and every one of the draws lands on some label-3 position as that position's theta |
| MaskedFill.AssignWhere | SimulateData.py:211-217 | `a[mask == c] = v` sets exactly the positions labelled c to v and leaves every other entry unchanged |
| MaskedFill.CopyWhere | SimulateData.py:242 | `a[mask == c] = src[mask == c]` copies src's entry at each position labelled c and leaves the rest unchanged |
| MaskedFill.ScatterWhere | SimulateData.py:245 | `a[mask == c] = draws` writes the draws onto the positions labelled c in position order, one each, and leaves the rest unchanged |
| Labels.DrawsInPositionOrder | SimulateData.py:245 | a labelled position has strictly fewer labelled positions before it than any later position, so it receives an earlier draw |
| Labels.Count | SimulateData.py:245 | `np.sum(idx == c)`. CountZeroIff gives it its meaning: the count is 0 exactly when no position carries c. CountPrefixLess and EveryDrawUsed add that a labelled position's prefix count is below the total, and that every number below the total is some labelled position's prefix count |
| Labels.CountZeroIff | SimulateData.py:245 | the count of a code is 0 exactly when no position carries it |
| Labels.DrawAt | SimulateData.py:245 | the value `a[mask] = draws` writes at a labelled position is one of the draws. By DrawsInPositionOrder and EveryDrawUsed, the draws go out in position order, each to exactly one position |
| Labels.EveryDrawUsed | SimulateData.py:245 | for every draw number below the label count there is a labelled position preceded by exactly that many labelled positions |
| Columns.Select | SimulateData.py:231-235 | a mask selection has one entry per position the mask labels with the code |
| Columns.SelectAt | SimulateData.py:231-235 | column j's entry sits in the selection at the number of selected columns before j |
| Columns.SelectionAligned | SimulateData.py:228-237 | selecting the same mask from a covariate row and from the weight vector gives equally long vectors whose entries at each position come from the same column |
| Columns.DotOfSelections | SimulateData.py:231-237 | the dot product of the two selections equals the sum over all columns of covariate times weight where the mask holds 2 and 0 elsewhere |
| Columns.MaskedDotAllSelected | SimulateData.py:237 | a mask that keeps every column gives the plain dot product |
| Columns.MaskedDotNoneSelected | SimulateData.py:237 | a mask that keeps no column gives 0 |
| Columns.HeterogeneousIndex | SimulateData.py:231-237 | `np.dot(X[:, r_idx == 2], weight_vector[r_idx == 2])` has one entry per observation. HeterogeneousIndexIsMaskedSum gives its value, and SelectAt the alignment of the selections |
| Simulation.SimData.HeterogeneousSignal | SimulateData.py:237-240 | the standardized signal `standardize(sin(.) + w)`, with the abstract length-preserving `shape`, has one entry per observation, applied to the index that HeterogeneousIndexIsMaskedSum characterises |
| Columns.HeterogeneousIndexIsMaskedSum | SimulateData.py:228-237 | each observation's argument of the sine is the masked sum of its covariates times the weights, and is 0 when no column is labelled 2 |
| Columns.DiminishingWeights | SimulateData.py:88 | the weights are k positive values 1/(j+1), at most 1 and strictly decreasing |
| Columns.Baseline | SimulateData.py:87-89 | the baseline has one value per covariate row |
| Assignment.Propensity | SimulateData.py:119-135 | the propensity vector has one entry per observation |
| Assignment.Bernoulli | SimulateData.py:138 | the assignment has one entry per observation and every entry is 0 or 1 |
| Assignment.RandomModeUniform | SimulateData.py:119-138 | in random mode each observation is treated exactly when its coin is below 0.5, independent of the covariates |
| Assignment.BernoulliExtremes | SimulateData.py:138 | with coins in [0, 1), a propensity of 1 always treats and a propensity of 0 never does |
| Outcome.Realized | SimulateData.py:254-260 | the realized effect has one entry per observation |
| Outcome.RealizedSelectsTreated | SimulateData.py:254-260 | for a binary assignment the realized effect is theta where D is 1 and 0 where D is 0 |
| Outcome.Compose | SimulateData.py:42 | the outcome has one entry per observation |
| Outcome.OutcomeIsolatesEffect | SimulateData.py:41-44 | outcome minus baseline minus noise is theta on treated rows and 0 on untreated rows |
| Outcome.TreatedUntreatedGap | SimulateData.py:41-42 | a treated and an untreated row with equal baseline and noise differ in outcome by the treated row's theta |
| Simulation.SimData.constructor | SimulateData.py:25-28 | a new session holds N and k and none of the generated fields |
| Simulation.SimData.GetN | SimulateData.py:274-275 | returns N |
| Simulation.SimData.GetK | SimulateData.py:277-278 | returns k |
| Simulation.SimData.SetN | SimulateData.py:280-281 | sets N and changes nothing else |
| Simulation.SimData.SetK | SimulateData.py:283-284 | sets k and changes nothing else |
| Simulation.SimData.GetX | SimulateData.py:286-287 | returns X, which exists only after the covariates are generated |
| Simulation.SimData.GetG0X | SimulateData.py:289-290 | returns g_0_X, which exists only after the covariates are generated |
| Simulation.SimData.GetTreatmentAssignment | SimulateData.py:292-293 | returns D, which exists only after the assignment is generated |
| Simulation.SimData.GetTreatmentEffect | SimulateData.py:295-296 | returns theta, which exists only after the effect is generated |
| Simulation.SimData.GenerateCovariates | SimulateData.py:83-92 | stores the N x k draws as X and one baseline value per row from the diminishing-weight projection, changing no other field |
| Simulation.SimData.GenerateTreatmentAssignment | SimulateData.py:105-141 | stores a binary D of length N drawn from the mode's propensity (0.5 for every row in random mode) and the k drawn weights, changing no other field; confounded mode needs the covariates |
| Simulation.SimData.GenerateTreatmentEffect | SimulateData.py:162-252 | fails exactly when every flag is false (no-regime error) or the supplied index is not an ndarray of length N (index error), and then leaves theta as it was; otherwise stores a length-N theta equal to the reference theta of the chosen index; the heterogeneous branch needs X and the weight vector; with negative on, every position labelled 3 gets a theta in [-1, 0] |
| Simulation.SimData.GenerateRealizedTreatmentEffect | SimulateData.py:254-260 | returns theta times D, which is theta on treated rows and 0 on untreated ones; needs both theta and D |
| Simulation.SimData.GenerateOutcomeVariable | SimulateData.py:31-44 | returns y = realized + g_0_X + noise of length N, X, and the realized effect; needs covariates, assignment and effect |
| Simulation.ConstantOnlyScenario | SimulateData.py:41-44 | with only constant on and the index drawn from the options, the realized effect is 0.2 on treated rows and 0 on untreated ones, and the outcome is that plus baseline plus noise |

## Left out

- Random sampling (`random.seed(8)`, `np.random.multivariate_normal`, `binomial`, `choice`, `uniform`, `normal`): every draw is an argument. The model says nothing about distributions, seeds or reproducibility.
- `make_spd_matrix` and the unused `self.p`: a library call whose positive-definiteness cannot be checked from the code.
- `np.cos(...)**2`, `np.sin`, the noise added to the heterogeneous signal and `standardize` from `helpers`: floating-point and library code. The squared cosine is a `real -> real` argument. `standardize(sin(.) + noise)` is a length-preserving `seq<real> -> seq<real>` argument. The [0.1, 0.3] range that standardisation promises is a hypothesis of `ThetaRange`, not a fact of the model.
- Simulation.SimData.GenerateTreatmentAssignment: the confounded mode's shape errors after `set_k` or `set_N` are not modelled. After `set_k`, X keeps its old column count and `np.dot` raises ValueError at SimulateData.py:126. After `set_N`, `m_0` keeps `len(X)` entries, and unless that is 1, `binomial` raises a shape-mismatch ValueError at :138. The model takes any length-N propensity vector in [0, 1] and returns normally.
- Confounded assignment's linear index, empirical mean and standard deviation and `stats.norm.cdf`: the propensity vector of that mode is an argument in [0, 1].
- Linear mode of `generate_covariates` (`g_0_X = X`, an N x k matrix that does not add to the outcome): only the nonlinear vector mode is modelled.
- `generate_noise`: only a draw, so the noise is an argument of `GenerateOutcomeVariable`.
- `visualize_correlation`, the `plot` branch of `generate_covariates`, `__str__`, and the `UserInterface` facade: display and a thin wrapper.
- Simulation.SimData.GenerateOutcomeVariable: numpy broadcasting of mismatched lengths is not modelled. The model requires theta, D, g_0_X and the noise to have length N. After `set_N` or `set_k` the session can reach shapes that numpy rejects or broadcasts.
- Simulation.SimData.GenerateTreatmentEffect: a non-sized `predefined_idx`, whose `len` raises a TypeError, is not modelled. A supplied index is modelled as one-dimensional with integer labels: a 2-D ndarray with `len` equal to N passes the check at SimulateData.py:201 and then raises IndexError at the first masked assignment, which the model does not capture. The heterogeneous branch requires `|X| == N`, rows of length k and a weight vector of length k. After `set_N` or `set_k` (SimulateData.py:280-284) the session can reach other shapes. There the length-k mask meets the old columns and raises IndexError at SimulateData.py:231 or :235. If |X| differs from N, the sum at :237 raises ValueError. If |X| is 1, the sum broadcasts and the call succeeds. If N is 1, the mask at :242 raises IndexError. None of these outcomes is modelled.
- Simulation.SimData.GenerateRealizedTreatmentEffect: requires theta and D to have the same length. After `set_N` the session can hold vectors of different lengths, and numpy then raises an error or broadcasts. The model does not capture this.
- Default arguments are not modelled: every flag defaults to True and `predefined_idx` to None at SimulateData.py:162-163, and `random` defaults to True at :105. The model's callers pass every argument.
- Aliasing: numpy arrays returned by the getters are the session's own buffers. The model returns values (`seq`), so later in-place changes through a returned array are not captured. Theta is filled in a fresh `array<real>` and stored as a value.
- N and k are natural numbers. `SimData` does not check them.
