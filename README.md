# Physical-chemistry dashboards: the models behind the pages, in Dafny

This project models the computational core of a set of physical-chemistry
dashboards and proves properties of it:

- **The Ehrenfest urn simulator** (`dashboards/ehrenfest/model.py`). `n = nA + nB`
  particles sit in two boxes. At every step one particle, picked at random,
  changes box. The generator keeps the box masks `A` and `B` and the particle
  coordinates `X` and `Y` in arrays that it updates in place. It appends the
  fractions in A and B and the fluctuation `B.sum() - A.sum()` to running lists.
  At every step it recomputes a density histogram of the fluctuation history and
  a Gaussian fit of it. It yields `nsteps + 1` frames.
  - `ehrenfest_spec.dfy` (module `EhrenfestSpec`) describes on values what every
    frame holds after a given sequence of picks.
  - `ehrenfest.dfy` (module `Ehrenfest`) is the generator as imperative code: the
    class `Urn` with the arrays and lists as fields, and the method `Simulate`
    with the step loop. Every frame `Simulate` yields is proved to be the one
    `EhrenfestSpec.FrameAfter` describes.
- **The Boltzmann page helpers** (`boltzmann_page.dfy`, module `BoltzmannPage`):
  - `add_to_container` packs panels into rows of at most `max_col` columns;
  - `remove_from_container` deletes a panel by re-packing all the others;
  - `update_table` builds the sorted (energy, population) table;
  - `update_plot_table` checks the input ranges and computes the table.

  These helpers appear three times in the repository: in
  `boltzmann/boltzmann.py`, in `boltzmann/app.py` and in
  `dashboards/boltzmann/boltzmann.py`. Only the dictionary keys of
  `update_table` differ between the copies, and the model covers all three. The
  table below cites the copy each member was read against.
- **Boltzmann populations** (`boltzmann/model.py`, module `BoltzmannModel`): the
  Boltzmann factor `exp(-E/kT)`, with E in electronvolts, and the populations
  `factor/Q`, where Q is the partition function.
- **The Carnot cycle** (`carnot/model.py`, module `Carnot`): the four states, and
  the work, heat, internal-energy change and entropy change of each leg, for an
  ideal gas. Also the efficiency and the total work.
- **Michaelis-Menten kinetics with inhibition** (`michaelis-menten/model.py`,
  module `MichaelisMenten`).
- **Hill-Langmuir saturation** (`hill/model.py`, module `Hill`).

Support modules:

- `real_sums.dfy` (`RealSums`): sums of real and integer sequences.
- `wrappers.dfy` (`Wrappers`): an `Option` type, used for the page inputs that
  may be missing.

Floating-point numbers are modelled as exact reals. The transcendental
functions (`exp`, `ln`, the real power `**`) and the Gaussian density `normpdf`
are function-valued parameters. A property that needs a fact about one of them
states that fact as a precondition. For example, `BoltzmannModel.ExpPositive`
says that `exp` is positive, and `Carnot.LnQuotient` says that
`ln(a/b) = ln a - ln b`. The random draws are parameters too: the coordinates in
[0, 1) and the particle picked at each step.

## Model

| member | source | states |
|---|---|---|
| EhrenfestSpec.Complement | dashboards/ehrenfest/model.py:53 | B's mask has one entry per particle and is the negation of A's mask at every index |
| EhrenfestSpec.CountPrefix | dashboards/ehrenfest/model.py:51-52 | the initial mask, with the first nA particles set, has exactly nA particles in A (nA <= n always, since n = nA + nB) |
| EhrenfestSpec.Conservation | dashboards/ehrenfest/model.py:60-62 | every particle is in exactly one box: the counts add up to n, fA + fB = 1, and the fluctuation is n - 2 count_A, within [-n, n] |
| EhrenfestSpec.CountFlip | dashboards/ehrenfest/model.py:73-74 | moving one particle changes the count of box A by exactly one, down if it left A and up if it entered A |
| EhrenfestSpec.Trajectory | dashboards/ehrenfest/model.py:71-74 | a run of k picks passes through k + 1 masks of n entries each, starting from the initial mask |
| EhrenfestSpec.TrajectoryPrefix | dashboards/ehrenfest/model.py:71-74 | the masks of the first k picks are the first k + 1 masks of a longer run |
| EhrenfestSpec.TrajectoryStep | dashboards/ehrenfest/model.py:72-74 | one more pick appends the last mask with the picked particle moved to the other box |
| EhrenfestSpec.Bin | dashboards/ehrenfest/model.py:64-65 | each value in [-n, n] falls in one of the 2n unit bins between consecutive edges of arange(-n, n+1): half-open bins, except that the last one is closed |
| EhrenfestSpec.Counts | dashboards/ehrenfest/model.py:64-65 | there are 2n counts, one per bin, all non-negative, and they add up to the number of samples, so no sample is dropped |
| EhrenfestSpec.CountsPerBin | dashboards/ehrenfest/model.py:64-65 | count k is the number of samples whose bin is k |
| EhrenfestSpec.HistogramOf | dashboards/ehrenfest/model.py:64-65 | the edges are the integers -n..n, there are 2n densities, they are non-negative, and their total area is exactly 1 |
| EhrenfestSpec.HistogramDensities | dashboards/ehrenfest/model.py:64-65 | density k is the share of the samples that fall in bin k |
| EhrenfestSpec.DensitiesSum | dashboards/ehrenfest/model.py:85 | counts that add up to the sample total, each divided by that total, give non-negative densities that add up to 1 |
| EhrenfestSpec.VariancePositive | dashboards/ehrenfest/model.py:87-88 | the population variance of the fluctuation history is positive as soon as two of its entries differ |
| EhrenfestSpec.GaussianFit | dashboards/ehrenfest/model.py:87-88 | the fit records the history's mean and population variance, and its values are the density at each of the 2n + 1 bin edges |
| EhrenfestSpec.FluctuationsAfter | dashboards/ehrenfest/model.py:62-83 | after k picks the fluctuation list has k + 1 entries, all within [-n, n] |
| EhrenfestSpec.InitialHistories | dashboards/ehrenfest/model.py:60-67 | before the first pick, the lists hold the initial mask's fraction in A, its fraction in B and its fluctuation; the histogram is that of this one value; there is no fit |
| EhrenfestSpec.HistoriesStep | dashboards/ehrenfest/model.py:80-88 | one pick appends the new mask's fractions and fluctuation to the three lists and recomputes the histogram and the fit from the whole new fluctuation list |
| EhrenfestSpec.FrameParts | dashboards/ehrenfest/model.py:89 | a yielded frame holds the x coordinates of the current mask, the fixed y coordinates, the fraction lists of the whole run, and the histogram and fit of the whole fluctuation list |
| EhrenfestSpec.InitialFrame | dashboards/ehrenfest/model.py:60-69 | the first frame has fA = [nA/n], fB = [nB/n], fluctuation [nB - nA] and no fit |
| EhrenfestSpec.HistoryInvariants | dashboards/ehrenfest/model.py:80-83 | at every recorded step, fA[t] + fB[t] = 1 and fluctuation[t] = n - 2 count_A, within [-n, n] |
| EhrenfestSpec.PositionsFlip | dashboards/ehrenfest/model.py:75-78 | moving particle i shifts only x[i]: by +width when it enters B and by -width when it returns to A |
| EhrenfestSpec.HistoriesExtend | dashboards/ehrenfest/model.py:80-83 | the lists only grow: the frame after one more pick starts with the previous frame's fA, fB and fluctuation lists |
| EhrenfestSpec.FluctuationSteps | dashboards/ehrenfest/model.py:72-83 | consecutive fluctuation entries differ by exactly 2 |
| EhrenfestSpec.Geometry | dashboards/ehrenfest/model.py:49-58 | with a positive width, a particle's x is in [0, width) exactly when it is in A and in [width, 2 width) exactly when it is in B; with a positive height, y is in [0, height) |
| EhrenfestSpec.DrawScaled | dashboards/ehrenfest/model.py:49 | a draw in [0, 1) scaled by a positive box side lies in [0, side) |
| EhrenfestSpec.FitWellDefined | dashboards/ehrenfest/model.py:86-88 | every frame after the first has a Gaussian fit with a positive variance (so normpdf never divides by zero), evaluated at all 2n + 1 edges |
| EhrenfestSpec.Drift | dashboards/ehrenfest/model.py:71-74 | after t picks, box A's count differs from nA by at most t |
| Ehrenfest.InitialArrays | dashboards/ehrenfest/model.py:49-58 | new arrays: A holds the first nA particles, B is its complement, X holds the scaled draws shifted by one width for the particles in B, and Y holds the scaled draws |
| Ehrenfest.MaskStatistics | dashboards/ehrenfest/model.py:60-62 | from the masks of the two boxes it computes the mask's fraction in A, its fraction in B and its fluctuation count_B - count_A, the values the lists start with and gain at every step |
| Ehrenfest.Urn.constructor | dashboards/ehrenfest/model.py:46-67 | the state before the first yield is the state of the empty pick sequence: arrays, lists, histogram and an empty fit |
| Ehrenfest.Urn.MoveParticle | dashboards/ehrenfest/model.py:73-78 | A[i] and B[i] are negated and X[i] moves by one width toward its new box; every other entry is unchanged and the arrays describe the run extended by i |
| Ehrenfest.NextHistories | dashboards/ehrenfest/model.py:80-88 | from the masks after pick i and the lists before it, the new fA, fB and fluctuation lists are the old ones with the new mask's values appended, and together with the recomputed histogram and fit they are the histories of the pick sequence extended by i |
| Ehrenfest.Urn.RecordStatistics | dashboards/ehrenfest/model.py:80-88 | fA, fB and the fluctuation list each gain the new mask's value, and the histogram and fit are those of the extended run |
| Ehrenfest.Urn.Step | dashboards/ehrenfest/model.py:72-88 | one loop pass with pick i: the arrays change at index i only, Y is unchanged, each list gains one entry, and the invariant linking the state to the pick history is kept |
| Ehrenfest.Urn.Snapshot | dashboards/ehrenfest/model.py:89 | the yielded X, Y, fA, fB, hist and hist_fit are exactly the frame the pick history determines |
| Ehrenfest.Simulate | dashboards/ehrenfest/model.py:16-90 | the generator yields exactly nsteps + 1 frames, and frame k is the configuration and statistics after the first k picks |
| BoltzmannPage.Added | dashboards/boltzmann/boltzmann.py:134-170 | adding an item puts it after all existing panels; the rows grow by at most one; all rows before the last are untouched |
| BoltzmannPage.AddedCanonical | boltzmann/boltzmann.py:181-199 | adding keeps the packed shape: every row full except the last, which holds between 1 and max_col panels |
| BoltzmannPage.AddToContainer | boltzmann/boltzmann.py:163-199 | an empty container or a full last row gives a new list and leaves the input list untouched; otherwise the last row grows in place and the same list is returned |
| BoltzmannPage.Pack | boltzmann/boltzmann.py:216-221 | adding panels one by one from an empty list keeps them in order, in packed rows, and gives no rows only for no panels |
| BoltzmannPage.CanonicalIsPacked | boltzmann/boltzmann.py:216-221 | a packed container is the packing of its own panels |
| BoltzmannPage.CanonicalUnique | boltzmann/boltzmann.py:216-221 | two packed containers with the same panels in the same order are equal |
| BoltzmannPage.Without | boltzmann/app.py:208-213 | the filter keeps no panel with the deleted uid and never lengthens the list |
| BoltzmannPage.WithoutMembers | boltzmann/app.py:208-213 | every panel with another uid is kept, and nothing that was not there is added |
| BoltzmannPage.WithoutTwice | boltzmann/app.py:208-213 | filtering the same uid twice is filtering it once |
| BoltzmannPage.WithoutAbsent | boltzmann/app.py:208-213 | a list in which no panel has the uid passes the filter unchanged |
| BoltzmannPage.RemovedContents | boltzmann/boltzmann.py:202-222 | the result holds exactly the panels other than uid, in order and in packed rows; it is empty exactly when no other panel remains |
| BoltzmannPage.RemovedIdempotent | boltzmann/boltzmann.py:202-222 | deleting the same uid twice is deleting it once |
| BoltzmannPage.RemovedAbsent | boltzmann/boltzmann.py:202-222 | deleting a uid that no panel has keeps every panel, and leaves a packed container exactly as it was |
| BoltzmannPage.RemoveFromContainer | boltzmann/app.py:194-214 | the nested loops over rows and columns return the packing of the panels other than uid |
| BoltzmannPage.Zip | boltzmann/boltzmann.py:230 | zip pairs entries index by index, up to the shorter length |
| BoltzmannPage.Insert | boltzmann/boltzmann.py:230 | inserting into a sorted table keeps it sorted and adds exactly that row |
| BoltzmannPage.SortRows | boltzmann/boltzmann.py:230 | sorted(...) returns the same rows in ascending tuple order |
| BoltzmannPage.UpdateTable | dashboards/boltzmann/boltzmann.py:196-202 | the table is a permutation of the (energy, population) pairs, ascending in tuple order and hence in energy, one row per pair |
| BoltzmannPage.SortedUnique | boltzmann/boltzmann.py:230 | a sorted table is determined by its rows, so any two sorted orders of the same pairs are equal |
| BoltzmannPage.UpdateTableKeepsIncreasing | boltzmann/boltzmann.py:225-231 | pairs whose energies already increase come out in their own order |
| BoltzmannPage.AcceptInputs | boltzmann/boltzmann.py:290-294 | the guard accepts exactly when no input is missing and e_max, n and T each lie in their closed range: [0.01, 5], [2, 25] and [1, 1e4] (lines 45-47) |
| BoltzmannPage.Linspace | boltzmann/boltzmann.py:295 | linspace(0, e_max, n) gives n evenly spaced energies, the i-th being i e_max/(n - 1), from 0 to exactly e_max, strictly increasing when e_max > 0 |
| BoltzmannPage.LevelsIncreasing | boltzmann/boltzmann.py:295 | evenly spaced levels with a positive e_max increase strictly |
| BoltzmannPage.UpdatePlotTable | boltzmann/app.py:284-300 | rejected inputs give an empty table; accepted ones give the (energy, population) rows of the n evenly spaced levels, in their own order |
| BoltzmannModel.Factors | boltzmann/model.py:15-38 | each level's factor is exp(-E e / (k T)) with E in electronvolts, one per level |
| BoltzmannModel.PartitionFunctionPositive | boltzmann/model.py:55-57 | Q, the sum of the factors, is positive for a non-empty set of levels when exp is positive |
| BoltzmannModel.Population | boltzmann/model.py:40-59 | one population per level, and each population times Q is that level's factor |
| BoltzmannModel.PopulationBounds | boltzmann/model.py:55-59 | each population is a fraction in (0, 1] |
| BoltzmannModel.PopulationNormalised | boltzmann/model.py:55-59 | the populations add up to 1 |
| BoltzmannModel.RaisingLevelLowersIt | boltzmann/model.py:37-58 | with two or more levels at positive temperature and a strictly increasing exp, raising one level's energy with all others fixed strictly lowers that level's population |
| BoltzmannModel.PopulationOrder | boltzmann/model.py:37-58 | at positive temperature a higher level is never more populated, and levels of equal energy are equally populated |
| BoltzmannModel.ExponentDecreasing | boltzmann/model.py:37 | at positive temperature the exponent -E/(kT) decreases as E increases |
| Carnot.IdealState | carnot/model.py:92-106 | every state obeys the ideal-gas law p V = R T |
| Carnot.Isothermal | carnot/model.py:110-129 | on an isothermal leg DU = 0, q = -w and DS T = q |
| Carnot.Adiabatic | carnot/model.py:117-136 | on an adiabatic leg q = 0, DS = 0 and DU = w |
| Carnot.CarnotCycle | carnot/model.py:58-141 | four states and four legs; the states are at T_h, T_h, T_c, T_c; V1 and V2 are the given volumes; every state obeys p V = R T; V4 V2 = V3 V1; the adiabatic legs do work C_v (T_c - T_h) and C_v (T_h - T_c); the efficiency is 1 - T_c/T_h; and the total work is the sum of the four legs' works |
| Carnot.DefaultGas | carnot/model.py:58 | with the default heat capacities Cv = 1.5 R and Cp = 2.5 R, gamma = 5/3 and V3 = (T_h/T_c)^(3/2) V2; the cycle is defined exactly when that power is non-zero, for non-zero temperatures and volumes |
| Carnot.FirstLaw | carnot/model.py:110-136 | every leg satisfies DU = q + w; the isothermal legs have DU = 0 and DS T = q; the adiabatic legs have q = 0 and DS = 0 |
| Carnot.CycleBalance | carnot/model.py:117-139 | the adiabatic works cancel, the internal energy returns to its start, and the total work is minus the heat of the two isothermal legs |
| Carnot.AdiabaticWorksCancel | carnot/model.py:119-133 | the adiabatic expansion and compression between the same temperatures have opposite works |
| Carnot.IsothermalHeats | carnot/model.py:113-128 | the isothermal legs take in q = R T ln(Vf/Vi) |
| Carnot.CompressionRatio | carnot/model.py:101-105 | with positive volumes and the logarithm's quotient law, ln(V4/V3) = -ln(V2/V1) |
| Carnot.EntropyAndEfficiency | carnot/model.py:101-141 | for positive volumes: DS over the cycle is 0, and the net work delivered is eta times the heat taken in at T_h |
| MichaelisMenten.LowerChar | michaelis-menten/model.py:34 | no upper-case ASCII letter survives, and other characters are unchanged |
| MichaelisMenten.Lower | michaelis-menten/model.py:34 | lowering keeps the length, leaves no upper-case letter, and lowers character by character |
| MichaelisMenten.LowerIdempotent | michaelis-menten/model.py:34 | lowering twice is lowering once |
| MichaelisMenten.MichaelisMenten | michaelis-menten/model.py:3-44 | competitive: KM is multiplied by 1 + I/KI. Noncompetitive: k2 is divided by it. Uncompetitive: both are divided by it. Any other name: both are kept. v0 (KM_eff + S) = k2_eff E0 S |
| MichaelisMenten.CaseInsensitive | michaelis-menten/model.py:34-42 | the kind's name is matched regardless of case |
| MichaelisMenten.NoInhibitor | michaelis-menten/model.py:35-43 | with I = 0 every kind leaves KM and k2 unchanged and gives the plain Michaelis-Menten rate |
| MichaelisMenten.RateBounds | michaelis-menten/model.py:43 | for positive KM, k2 and E0 and S >= 0, 0 <= v0 < Vmax = k2 E0 |
| MichaelisMenten.HalfMaximalRate | michaelis-menten/model.py:43 | at S = KM the rate is half of k2 E0 |
| MichaelisMenten.UncompetitiveKeepsSlope | michaelis-menten/model.py:40-42 | an uncompetitive inhibitor keeps KM/k2 unchanged |
| MichaelisMenten.InhibitionSlows | michaelis-menten/model.py:35-43 | for positive constants, I >= 0 and KI > 0, no kind of inhibition makes v0 larger than the uninhibited rate |
| MichaelisMenten.CompetitiveSlows | michaelis-menten/model.py:36-37 | a factor >= 1 on KM never increases the rate |
| MichaelisMenten.NoncompetitiveSlows | michaelis-menten/model.py:38-39 | dividing k2 by a factor >= 1 never increases the rate |
| MichaelisMenten.UncompetitiveSlows | michaelis-menten/model.py:40-42 | dividing both KM and k2 by a factor >= 1 never increases the rate |
| Hill.Hill | hill/model.py:3-25 | the saturation s solves s (Kd + L^n) = L^n with Kd = L50^n |
| Hill.HalfSaturation | hill/model.py:23-24 | at L = L50 the protein is half saturated (when L50^n > 0) |
| Hill.SaturationBounds | hill/model.py:24 | for L^n >= 0 and Kd > 0, 0 <= s < 1, and s = 0 exactly when L^n = 0 |
| Hill.UnboundFraction | hill/model.py:24 | 1 - s = Kd / (Kd + L^n) |
| Hill.HillPlot | hill/model.py:23-24 | s / (1 - s) = L^n / Kd, the linear relation behind the Hill plot |
| Hill.SaturationIncreasing | hill/model.py:24 | a larger L^n gives strictly more saturation |

## Left out

- The user interface (Dash layouts, figures, translations, callbacks other than
  the helpers above) and the animation that consumes the Ehrenfest frames.
- Floating point: every float is an exact real, so rounding, overflow, `inf` and
  `nan` are not modelled. In particular, `np.linspace`'s last point is modelled
  as exactly `e_max`.
- `exp`, `ln`, the real power `**` and `normpdf` are function parameters; their
  numerical definitions are not modelled.
- Random numbers: `default_rng().random` and `rng.choice` are replaced by the
  draws passed in. The model does not state that the picks are uniform or
  independent.
- `np.histogram` with `density=True` is modelled through its integer bin counts
  divided by the number of samples, since every bin has width 1. The fit's
  standard deviation enters only squared, as `normpdf` uses it, so the fit stores
  the population variance (numpy's `std` with `ddof=0`).
- Ehrenfest.Simulate: the yielded frames are modelled as snapshots. In the source
  every frame shares the same `X`, `Y`, `fA` and `fB` objects, which later steps
  keep changing. A consumer that keeps an old frame after pulling the next one
  sees the later values; the model does not capture that aliasing.
- Ehrenfest: the model requires at least one particle (`n >= 1`). With `n = 0`
  the fractions `A.sum()/n` are 0/0, which numpy turns into nan rather than an
  error, and the first step's `rng.choice(0, 1)` has no particle to pick.
- BoltzmannPage.AddToContainer: rows are values. In the source, the last row
  object of the list passed in is itself extended in place, both as a `dbc.Row`
  and as a dictionary. The model states the new list and whether the same list is
  returned, but not that the row object is shared. Column and row properties
  (`col_props`, `row_props`) and the `dbc.Col` wrapping are not modelled; a
  column is its panel.
- BoltzmannPage.UpdatePlotTable: models only the table. The figure, and the
  `update_panels_container` dispatch that parses the uid from the trigger, are UI.
  The model types `n` as an integer. The page's number input for `n` sets no
  `step`, so a fractional `n` within the range passes the range check and then
  makes `np.linspace` fail; that failure is not modelled.
- `update_table`'s dictionary keys (`energy` and `population`, or their
  prefixed forms in `dashboards/boltzmann/boltzmann.py`) become the two fields
  of `BoltzmannPage.TableRow`.
- BoltzmannModel.Population: units (pint) are not modelled. Energies are in
  electronvolts and temperatures in kelvin, because the code multiplies plain
  numbers by `ureg.eV` and `ureg.kelvin`. The docstrings say the energies are in
  joules; the model follows the code.
- Broadcasting over arrays, in `hill`, `michaelis_menten` and the Boltzmann
  factor, is left out: these are modelled on scalars, and `Population` on a
  sequence of energies.
- Carnot: `iso_T` and `adiab` (lines 47-55), which sample (V, p) curves for the
  plots, are not modelled; a `Leg` carries only w, q, DU and DS. V3's power
  `(T_h/T_c)**(1/(gamma-1))` is the `pow` parameter.
- Carnot: the sign convention is the code's. `w` is the work done on the gas,
  so the net work delivered is `-w_tot = q_h + q_c`, where `q_c` is negative. It
  is equal to `eta * q_h` (`Carnot.EntropyAndEfficiency`). The code checks
  neither `V1 < V2` nor the signs of the temperatures, and raises no domain error.
  The model only requires what avoids a division by zero (`Carnot.Defined`).
- Division by zero: the model requires non-zero denominators where the source
  would fail or produce `inf`/`nan`. These are `T != 0` for Boltzmann,
  `KI != 0`, a non-zero factor and `KM + S != 0` for Michaelis-Menten, and
  `Kd + L^n != 0` for Hill.
- MichaelisMenten.Lower: Python's `str.lower()` covers all of Unicode; the model
  lowers only the ASCII letters A-Z. A kind name other than the three known ones,
  including the default `''`, means no inhibition.
