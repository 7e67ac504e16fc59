# Metacommunity orchestration, modelled in Dafny

This project models `Metacommunity<Individual>` from `src/metacommunity.h` of
the `tree` plant-community simulator. A metacommunity owns a fixed list of
patches, a global age and one adaptive ODE solver. It does four jobs, and the
model covers each one:

- **Flat ODE state vector** (`StateVector`). The patches are exposed as one
  vector, patch after patch in index order. `ode_size`, `ode_values`,
  `ode_values_set`, `ode_rates` and `derivs` thread a cursor through the
  patches. The cursor is an index into a buffer. Every operation is related to
  `Flatten`, the concatenation of the patch states.
- **Demographic step** (`Demographics`, `Metacommunities`). `step` runs
  `step_deterministic` and then `step_stochastic`. The deterministic part is
  one solver step. The stochastic part runs deaths on every patch, then sums
  births, then redistributes the seeds.
- **Seed redistribution** (`SeedRain`). The seed pool is spread by sequential
  binomial draws. The binomial sampler is an oracle `Draw(pos, n, p)`. `pos`
  counts the draws made so far. It is not the position in R's generator,
  which `R::rbinom` advances by a varying number of uniforms. The oracle is
  only assumed never to return more than `n`, and to return `n` when `p` is 1.
- **Host-facing matrices** (`Matrices`, `RInterface`). These are
  `r_add_seedlings`, `r_n_individuals` and `r_clear`. Matrices are stored
  column by column, as R stores them.

A patch (`Patches.Patch`) is abstract: an age, one count per species, and a
sequence of continuous state variables. `patch.h` is not part of this model.
The patch operations that the metacommunity calls but does not define are
function parameters:

- `Demography`: mortality, fecundity, seed addition and seedling addition.
- `Growth`: the rate of change of each state variable.

The adaptive solver is also a parameter, `Ode.Integrator`. One call is one
adaptive step, started from a state vector and a time. It reports a new
vector, a new time and new step-size history, or failure. It is assumed to
return a vector of the length it was given (`Ode.ValidIntegrator`).

`size()` is `Metacommunity.Size()`, the number of patches, and `r_age()` is the
`age` field. Real numbers stand for `double`.

## Model

| member | source | states |
|---|---|---|
| StateVector.OdeSize | src/metacommunity.h:166-173 | The summed patch sizes are the length of the concatenated patch states. |
| StateVector.OdeSizeAppend | src/metacommunity.h:166-173 | The size is additive over patch order: the size of `ps + qs` is the size of `ps` plus the size of `qs`. |
| StateVector.OdeValues | src/metacommunity.h:183-189 | Walking the patches with the cursor is one copy of the concatenated states at the start cursor. It leaves every other slot alone and advances the cursor by exactly `ode_size()`. |
| StateVector.OdeRates | src/metacommunity.h:191-197 | It walks the patches the same way as `ode_values`: one copy of the concatenated per-patch rates, with the cursor advanced by `ode_size()`. |
| StateVector.OdeValuesSet | src/metacommunity.h:175-181 | It consumes exactly `ode_size()` values. Every patch keeps its age, counts and state length. The installed states, read back in order, are the consumed values. |
| StateVector.SlotsCorrespond | src/metacommunity.h:175-197 | Set, get and rates stop at the same cursor. Slot `it + k` holds the value and the rate of the same variable of the same patch, located by `Locate`. |
| StateVector.GetThenSet | src/metacommunity.h:175-189 | Reading the values out and setting them back at the same cursor leaves every patch unchanged. |
| StateVector.SetThenGet | src/metacommunity.h:175-189 | Setting from a vector and reading back at any cursor returns the consumed part of that vector. |
| StateVector.Pack | src/metacommunity.h:112-113 | The vector packed for the solver is the concatenation of the patch states in index order. |
| StateVector.Derivs | src/metacommunity.h:159-164 | `y` is installed first, keeping shapes. The output has `ode_size()` slots and holds the rates of the updated patches, in the same order. |
| StateVector.DerivsAutonomous | src/metacommunity.h:159-164 | `derivs` does not depend on its time argument. It depends on the patches only through their shapes, so it does not depend on state left over from earlier calls. |
| Metacommunities.Initialise | src/metacommunity.h:265-272 | Creates exactly `n_patches` empty patches, or none when `n_patches` is not positive. Age is 0, the solver is fresh, and the state vector is empty. |
| Metacommunities.StepDeterministic | src/metacommunity.h:110-117 | The solver is started from the packed state at the old age. The step succeeds exactly when the solver steps, and solver failure is the only error. On success the age is the solver's reported time, the solver keeps its new history, and the patches hold the returned state with their shapes kept. |
| Metacommunities.StepStochastic | src/metacommunity.h:119-123 | It fails exactly when a patch, after its deaths, reports a birth vector of the wrong length. The object then holds the post-death patches, because `deaths` has already run. On success, births are taken from the post-death patches, and patch `i` ends as its post-death self plus its share of the seeds, one entry per species. Every seed born lands in some patch. Age and solver are unchanged. Share `i`, species `s` is the draw at position `pos + i * n_species + s` over the seeds of `s` still unplaced, with probability `1/(n_patches - i)`. |
| Metacommunities.Step | src/metacommunity.h:104-108 | `step` is `step_stochastic` applied to the result of `step_deterministic`. A solver failure ends the step before any demography and leaves the community as it was. Otherwise the step succeeds exactly when every grown patch, after its deaths, reports one birth per species. A failure leaves the grown community, with its advanced age, after its deaths. A success keeps the solver's age and history, gives each patch its post-death self plus its share, and places every seed born. |
| Demographics.Deaths | src/metacommunity.h:135-140 | Every patch runs its own mortality. No patch is added, dropped or moved. |
| Demographics.BirthsFrom | src/metacommunity.h:128-132 | The accumulator succeeds exactly when every patch's birth vector has its length. It then holds the start value plus the per-species total over all patches. |
| Demographics.Births | src/metacommunity.h:125-133 | With the accumulator sized by species, `births` is the per-species total of all patches' births. It fails exactly when a patch reports a vector of another length. |
| Demographics.BirthsAsWritten | src/metacommunity.h:126-133 | As written, `births` succeeds only when every patch's birth vector is as long as the number of patches. |
| Demographics.BirthsAsWrittenRejectsOneSpeciesTwoPatches | src/metacommunity.h:127-130 | With one species in two patches, the as-written code refuses the first sum. The corrected code returns 3 + 4 = 7. |
| SeedRain.AddSeeds | src/metacommunity.h:142-156 | For each species, seeds placed plus seeds left equal the input. With at least one patch nothing is left, and a single patch receives the whole pool. Patch `i` receives share `i`. Share `i`, species `s` is the oracle's draw at position `pos + i * n_species + s`, over the seeds of `s` the earlier patches left, with probability `1/(n_patches - i)`. So the shares are fixed by the oracle and the start position. |
| SeedRain.DrawShare | src/metacommunity.h:149-153 | One patch's turn (species loop bounded by the number of species): species `s` gets the draw at position `at + s` over what is left of `s`, with the patch's probability. The share and what is left add up to what there was. With probability 1 nothing is left. |
| SeedRain.AddSeedsAsWritten | src/metacommunity.h:142-156 | As written, the seed loop completes, for any draws, only with no patch, or with one patch and at least one species. With fewer species than patches it reads past the last species. Otherwise the second patch's probability is 1/0. |
| SeedRain.AsWrittenConserves | src/metacommunity.h:142-156 | In the as-written loop, for any draw schedule, the seeds handed out, plus the share being built, plus the seeds left equal the input, up to wherever the run stops. |
| SeedRain.AsWrittenStrandsSeeds | src/metacommunity.h:144-149 | With 2 patches and 2 species, `j` reaches 0 after the first patch, so the second patch's probability is 1/0. A valid sampler can leave all 20 seeds unplaced. |
| SeedRain.AsWrittenIndexOutOfRange | src/metacommunity.h:147-150 | With 2 patches and 1 species, the species loop reads species 1, which does not exist. |
| SeedRain.AsWrittenOnePatch | src/metacommunity.h:144-153 | With one patch, `p` is 1/1, so the patch takes all of species 0. Every other species' seeds stay in the pool. |
| RInterface.RAddSeedlings | src/metacommunity.h:213-224 | A wrong column count, then a wrong row count, is rejected before any patch changes. Otherwise patch `i` receives exactly column `i`, whose row `s` is entry (s, i). Nothing else changes. |
| RInterface.CopyCounts | src/metacommunity.h:229-235 | Copying patch counts at a moving iterator is one copy of their concatenation. A copy past the end of the buffer is refused. |
| RInterface.RNIndividuals | src/metacommunity.h:226-238 | Returns an `n_species` by `n_patches` matrix. When every patch reports one count per species, entry (s, p) is patch `p`'s count of species `s`. |
| RInterface.RClear | src/metacommunity.h:240-247 | Age is 0, the number of patches is kept, and every patch is empty with age 0. The state vector is empty and the solver history is cleared. |
| RInterface.ClearedCountsAreZero | src/metacommunity.h:226-247 | After `r_clear`, `r_n_individuals` reports zero for every species and patch. |

## Findings

| source | as written | input that shows it | evidently intended | confidence | as-written member | corrected member |
|---|---|---|---|---|---|---|
| src/metacommunity.h:149 | `j` is decremented on every species iteration (`i++, j--`) instead of once per patch | 2 patches, 2 species, seeds [10, 10]: after patch 0, `j` is 0, and patch 1 computes `p = 1.0/0` | decrement `j` once per patch, so the last patch draws with `p = 1` | high; not executed | SeedRain.AsWrittenStrandsSeeds | SeedRain.AddSeeds |
| src/metacommunity.h:147-150 | `seeds_i` is sized, and the species loop is bounded, by `size()`, the number of patches | 2 patches, 1 species, seeds [10]: `seeds[1]` is read past the end. With 1 patch and 2 species, species 1 is never handed out (SeedRain.AsWrittenOnePatch) | size the vector and bound the loop by the number of species | high; not executed | SeedRain.AsWrittenIndexOutOfRange | SeedRain.AddSeeds |
| src/metacommunity.h:127 | the birth accumulator is `std::vector<int> n(size(), 0)`, with one entry per patch | 2 patches, 1 species, patch births [3] and [4]: the sum of a length-2 and a length-1 vector is refused | one entry per species | medium, because it relies on `util::sum` checking lengths (util.h is not part of this model); not executed | Demographics.BirthsAsWrittenRejectsOneSpeciesTwoPatches | Demographics.Births |

The rest of the model uses the corrected `Births` and `AddSeeds`.

## Left out

- SeedRain.AddSeeds: states conservation and the draw schedule, with each draw's trials and probability. It does not state the resulting distribution, that each seed lands in each patch with equal probability. The sampler is an oracle, and distributions are not modelled.
- Metacommunities.StepDeterministic: installs the vector the solver accepted. The C++ code leaves the patches as the solver's last `derivs` call set them, which is assumed to be at the accepted state.
- Metacommunities.StepStochastic: leaves the solver untouched, because `step_stochastic` does not call `reset`. The solver's state after deaths and seed rain change the patches is as the C++ code leaves it; only `r_clear` resets it.
- StateVector.RhsOf: a vector shorter than `ode_size()` yields no rates. The C++ code would read past its end.
- RInterface.RNIndividuals: a patch whose counts would overflow the matrix gives an error. In the C++ code this is an unchecked `std::copy`.
- Demographics.Deaths: patch mortality, and any randomness in fecundity, is random in the C++ code and reads the same R generator as `add_seeds`; `r_step_stochastic` scopes that generator around both. Here `dem.deaths` and `dem.births` are fixed functions of the patch, and `pos` counts only the binomial draws of `add_seeds`.
- `util::sum` (used by `births`): its length check is assumed, as the helper `Demographics.AddVectors`. util.h is not part of this model.
- Random stream: `pos` counts binomial draws. How many uniforms `R::rbinom` takes from R's generator for each draw, and that it takes none when `n` is 0 or `p` is 1, is not modelled.
- Metacommunities.Step: after a solver failure the model keeps the community as it was. In the C++ code the patches hold whatever state the solver's last trial `derivs` call installed. The solver's own state after a failed step is not modelled either.
- Adaptive solver internals (step-size control, tolerances, rejection and retry): not shown and floating point. The solver is the opaque `Ode.Integrator`.
- Patch internals (cohorts, mortality, fecundity, disturbance, germination): patch.h is not part of this model. They are the `Demography` and `Growth` parameters.
- `r_step` and `r_step_stochastic`: they only add `Rcpp::RNGScope` around `step` and `step_stochastic`. The generator is the explicit stream position `pos`.
- `r_at` and `r_get_patches`: Rcpp list wrapping and bounds-checked copying, with no metacommunity logic.
- `int` and `size_t` widths: seed and individual counts are unbounded naturals. C++ overflow is not modelled. The as-written seed loop is modelled up to its first fault, `p = 1.0/0` or a species index past the end. The model stops there. In the C++ code `p` becomes infinite and the binomial draw returns NaN. Casting that NaN to `int` is undefined, and `j--` then wraps 0 round to the largest `size_t`. What the code does after the fault is undefined, and the model does not follow it.
- Floating point: `p = 1.0/j` is exact real division, so `j == 1` gives `p == 1` exactly, as it does in IEEE arithmetic.
