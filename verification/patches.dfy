/** A patch as the metacommunity sees it. The patch's own dynamics (cohorts,
    light competition, fecundity, mortality, disturbance) belong to patch.h,
    which is not part of this model: what the metacommunity needs from a patch
    is its piece of the state vector, its species counts, and four
    demographic operations, given here as function parameters. */
module Patches {
  import opened Cursor

  /** `counts[s]` is the number of living individuals of species `s`;
      `state` holds the patch's continuous state variables in the patch's own
      traversal order (species, then individuals in insertion order). */
  datatype Patch = Patch(age: real, counts: seq<nat>, state: seq<real>) {

    /** Number of state variables this patch contributes to the ODE system. */
    function OdeSize(): nat {
      |state|
    }

    /** Rates of change of this patch's state variables, one per variable. */
    function Rates(g: Growth): (r: seq<real>)
      ensures |r| == OdeSize()
      ensures forall k :: 0 <= k < |r| ==> r[k] == g(this, k)
    {
      seq(|state|, k requires 0 <= k < |state| => g(this, k))
    }

    /** Patch-level `ode_values`: copies the state out at the cursor. */
    function OdeValues(buf: seq<real>, it: nat): (seq<real>, nat)
      requires it + OdeSize() <= |buf|
    {
      (Write(buf, it, state), it + OdeSize())
    }

    /** Patch-level `ode_rates`: copies the rates out at the cursor. */
    function OdeRates(g: Growth, buf: seq<real>, it: nat): (seq<real>, nat)
      requires it + OdeSize() <= |buf|
    {
      (Write(buf, it, Rates(g)), it + OdeSize())
    }

    /** Patch-level `ode_values_set`: takes the next `OdeSize()` values. */
    function OdeValuesSet(ys: seq<real>, it: nat): (Patch, nat)
      requires it + OdeSize() <= |ys|
    {
      (this.(state := ys[it..it + OdeSize()]), it + OdeSize())
    }

    /** Same patch apart from the values of its state variables. */
    predicate SameShape(other: Patch) {
      age == other.age && counts == other.counts && |state| == |other.state|
    }

    /** Patch-level `r_clear`: no individuals, no state, age zero. */
    function Cleared(): Patch {
      Empty(|counts|)
    }
  }

  /** A freshly constructed patch for `nSpecies` species. */
  function Empty(nSpecies: nat): Patch {
    Patch(0.0, Fill<nat>(nSpecies, 0), [])
  }

  /** The growth model: rate of change of state variable `k` of a patch. It
      sees the whole patch, since growth depends on the light environment. */
  type Growth = (Patch, nat) -> real

  /** The patch operations the metacommunity drives but does not define. */
  datatype Demography = Demography(
    deaths: Patch -> Patch,
    births: Patch -> seq<nat>,
    addSeeds: (Patch, seq<nat>) -> Patch,
    addSeedlings: (Patch, seq<int>) -> Patch)
}
