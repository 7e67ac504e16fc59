/** The metacommunity (metacommunity.h, `Metacommunity<Individual>`): a fixed
    list of patches, a global age, and one ODE solver whose right-hand side is
    the community itself. A step integrates growth for one adaptive solver
    step, then applies deaths, births and seed rain. */
module Metacommunities {
  import opened Results
  import opened Cursor
  import opened Patches
  import opened StateVector
  import opened Demographics
  import opened SeedRain
  import Ode

  /** The part of `Parameters` the metacommunity reads: `n_patches` and the
      number of species (`parameters->size()`). */
  datatype Parameters = Parameters(nPatches: int, nSpecies: nat)

  datatype Metacommunity = Metacommunity(params: Parameters, patches: seq<Patch>, age: real, solver: Ode.Solver) {

    /** `size()`: the number of patches. */
    function Size(): nat {
      |patches|
    }

    function NSpecies(): nat {
      params.nSpecies
    }

    /** Every patch reports one count per species. */
    predicate Valid() {
      forall i :: 0 <= i < |patches| ==> |patches[i].counts| == params.nSpecies
    }
  }

  /** The constructor and `initialise`: `n_patches` fresh patches (none when
      `n_patches` is not positive, as the `int` loop bound gives), age zero, a
      solver with no history; the state vector is empty. */
  method Initialise(params: Parameters) returns (mc: Metacommunity)
    ensures mc.params == params && mc.age == 0.0 && mc.solver == Ode.Fresh()
    ensures |mc.patches| == if params.nPatches > 0 then params.nPatches else 0
    ensures forall i :: 0 <= i < |mc.patches| ==> mc.patches[i] == Empty(params.nSpecies)
    ensures mc.Valid()
    ensures OdeSize(mc.patches) == 0
  {
    var ps: seq<Patch> := [];
    var i := 0;
    while i < params.nPatches
      invariant 0 <= i && |ps| == i
      invariant i <= if params.nPatches > 0 then params.nPatches else 0
      invariant forall q :: 0 <= q < i ==> ps[q] == Empty(params.nSpecies)
    {
      ps := ps + [Empty(params.nSpecies)];
      i := i + 1;
    }
    NoStateNoOdeSize(ps);
    mc := Metacommunity(params, ps, 0.0, Ode.Fresh());
  }

  /** `step_deterministic`: the community is packed into a vector, the
      solver takes one step from the current age with the community's
      `derivs` as right-hand side, and the accepted vector is installed back.
      It succeeds exactly when the solver steps; then the age is the time the
      solver reports, the patches keep their shapes and hold the returned
      state in order, and the solver keeps its new history. */
  function StepDeterministic(mc: Metacommunity, g: Growth, integrate: Ode.Integrator): (r: Result<Metacommunity>)
    requires Ode.ValidIntegrator(integrate)
    ensures var o := integrate(RhsOf(mc.patches, g), Flatten(mc.patches), mc.age, mc.solver);
      r.Ok? <==> o.Stepped?
    ensures r.Err? ==> r == Err(IntegrationFailure)
    ensures var o := integrate(RhsOf(mc.patches, g), Flatten(mc.patches), mc.age, mc.solver);
      r.Ok? ==> && r.value.age == o.time
                && r.value.solver == o.solver
                && r.value.params == mc.params
                && SameShapes(r.value.patches, mc.patches)
                && Flatten(r.value.patches) == o.y
  {
    var y := Pack(mc.patches);
    match integrate(RhsOf(mc.patches, g), y, mc.age, mc.solver)
    case Failed => Err(IntegrationFailure)
    case Stepped(y', t', solver') =>
      Ok(mc.(patches := OdeValuesSet(mc.patches, y', 0).0, age := t', solver := solver'))
  }

  /** `step_stochastic`: deaths in every patch, then births of the survivors,
      then the seed pool spread over the patches. The object is changed in
      place, so `after` is the state it holds afterwards, on failure too. It
      fails exactly when some surviving patch reports a birth vector of the
      wrong length, and then holds the survivors, since `deaths` has already
      run. On success patch `i` is patch `i` after its deaths, given its share
      of the seeds, one entry per species; every seed born among the
      survivors lands in some patch; the age and the solver are left alone;
      the shares follow the sequential binomial schedule over the births,
      one draw per patch and species from position `pos` on. */
  method StepStochastic(mc: Metacommunity, dem: Demography, draw: Draw, pos: nat)
    returns (r: Result<Metacommunity>, after: Metacommunity, alloc: seq<seq<nat>>, pos': nat)
    requires ValidDraw(draw)
    ensures r.Ok? <==> forall i :: 0 <= i < |mc.patches| ==> |dem.births(dem.deaths(mc.patches[i]))| == mc.NSpecies()
    ensures r.Err? ==> after == mc.(patches := Deaths(mc.patches, dem)) && pos' == pos
    ensures r.Ok? ==> && after == r.value
                      && r.value.params == mc.params && r.value.age == mc.age && r.value.solver == mc.solver
                      && |r.value.patches| == |mc.patches| && |alloc| == |mc.patches|
                      && pos' == pos + |mc.patches| * mc.NSpecies()
    ensures r.Ok? ==> forall i :: 0 <= i < |mc.patches| ==>
      |alloc[i]| == mc.NSpecies() && r.value.patches[i] == dem.addSeeds(dem.deaths(mc.patches[i]), alloc[i])
    ensures r.Ok? && |mc.patches| > 0 ==> forall s :: 0 <= s < mc.NSpecies() ==>
      Placed(alloc, s) == SpeciesTotal(Deaths(mc.patches, dem), dem, s)
    ensures var born := Births(mc.NSpecies(), Deaths(mc.patches, dem), dem);
      r.Ok? ==> born.Ok? && forall i :: 0 <= i < |mc.patches| ==> Scheduled(alloc, born.value, |mc.patches|, draw, pos, i)
  {
    var survivors := Deaths(mc.patches, dem);
    var births := Births(mc.NSpecies(), survivors, dem);
    if births.Err? {
      after := mc.(patches := survivors);
      return Err(births.error), after, [], pos;
    }
    var ps', remaining;
    ps', alloc, remaining, pos' := AddSeeds(survivors, dem, births.value, draw, pos);
    after := mc.(patches := ps');
    r := Ok(after);
  }

  /** `step`: `step_deterministic`, then `step_stochastic` on its result. A
      solver failure ends the step before any demography. Otherwise the
      stochastic half acts on the grown community with the contract above:
      it succeeds exactly when every grown patch, after its deaths, reports
      one birth per species; a failure leaves the grown community after its
      deaths, its age already advanced; a success keeps the solver's age and
      history and places every seed born. */
  method Step(mc: Metacommunity, g: Growth, integrate: Ode.Integrator, dem: Demography, draw: Draw, pos: nat)
    returns (r: Result<Metacommunity>, after: Metacommunity, alloc: seq<seq<nat>>, pos': nat)
    requires Ode.ValidIntegrator(integrate)
    requires ValidDraw(draw)
    ensures var grown := StepDeterministic(mc, g, integrate);
      grown.Err? ==> r == Err(grown.error) && after == mc && pos' == pos
    ensures var grown := StepDeterministic(mc, g, integrate);
      grown.Ok? ==> (r.Ok? <==> forall i :: 0 <= i < |mc.patches| ==>
                       |dem.births(dem.deaths(grown.value.patches[i]))| == mc.NSpecies())
    ensures var grown := StepDeterministic(mc, g, integrate);
      grown.Ok? && r.Err? ==> after == grown.value.(patches := Deaths(grown.value.patches, dem)) && pos' == pos
    ensures var grown := StepDeterministic(mc, g, integrate);
      r.Ok? ==> && grown.Ok? && after == r.value
                && r.value.params == mc.params
                && r.value.age == grown.value.age
                && r.value.solver == grown.value.solver
                && |r.value.patches| == |mc.patches| == |alloc|
                && pos' == pos + |mc.patches| * mc.NSpecies()
    ensures var grown := StepDeterministic(mc, g, integrate);
      r.Ok? ==> forall i :: 0 <= i < |mc.patches| ==>
                  |alloc[i]| == mc.NSpecies()
                  && r.value.patches[i] == dem.addSeeds(dem.deaths(grown.value.patches[i]), alloc[i])
    ensures var grown := StepDeterministic(mc, g, integrate);
      r.Ok? && |mc.patches| > 0 ==> forall s :: 0 <= s < mc.NSpecies() ==>
        Placed(alloc, s) == SpeciesTotal(Deaths(grown.value.patches, dem), dem, s)
    ensures var grown := StepDeterministic(mc, g, integrate);
      r.Ok? ==> && grown.Ok?
                && var born := Births(mc.NSpecies(), Deaths(grown.value.patches, dem), dem);
                   born.Ok? && forall i :: 0 <= i < |mc.patches| ==> Scheduled(alloc, born.value, |mc.patches|, draw, pos, i)
  {
    var grown := StepDeterministic(mc, g, integrate);
    if grown.Err? {
      return Err(grown.error), mc, [], pos;
    }
    r, after, alloc, pos' := StepStochastic(grown.value, dem, draw, pos);
  }
}
