/** The demographic half of `step_stochastic`: deaths in every patch, then
    the community's birth vector (metacommunity.h, `deaths`, `births`).
    Patch-level mortality and fecundity come from a `Demography`. */
module Demographics {
  import opened Results
  import opened Cursor
  import opened Patches

  /** `deaths`: every patch runs its own mortality, in index order; no
      patch is added, dropped or moved. */
  function Deaths(ps: seq<Patch>, dem: Demography): (r: seq<Patch>)
    ensures |r| == |ps|
    ensures forall i :: 0 <= i < |ps| ==> r[i] == dem.deaths(ps[i])
  {
    seq(|ps|, i requires 0 <= i < |ps| => dem.deaths(ps[i]))
  }

  /** Reference total: seeds of species `s` produced over all patches. */
  function SpeciesTotal(ps: seq<Patch>, dem: Demography, s: nat): nat {
    if ps == [] then 0 else Entry(dem.births(ps[0]), s) + SpeciesTotal(ps[1..], dem, s)
  }

  /** `util::sum`: the elementwise sum of two vectors of equal length. The
      length check is that of `util::check_length(b.size(), a.size())`;
      util.h is not part of this model. */
  function AddVectors(a: seq<nat>, b: seq<nat>): (r: Result<seq<nat>>)
    ensures r.Ok? <==> |a| == |b|
    ensures r.Err? ==> r.error == LengthMismatch(|a|, |b|)
    ensures r.Ok? ==> |r.value| == |a| && forall s :: 0 <= s < |a| ==> r.value[s] == a[s] + b[s]
  {
    if |a| != |b| then Err(LengthMismatch(|a|, |b|))
    else Ok(seq(|a|, s requires 0 <= s < |a| => a[s] + b[s]))
  }

  /** The loop of `births`: the accumulator absorbs one patch's birth vector
      after another. It succeeds exactly when every patch's vector has the
      accumulator's length, and then holds, per species, the accumulator's
      start value plus the total over all patches. */
  function BirthsFrom(acc: seq<nat>, ps: seq<Patch>, dem: Demography): (r: Result<seq<nat>>)
    ensures r.Ok? <==> forall i :: 0 <= i < |ps| ==> |dem.births(ps[i])| == |acc|
    ensures r.Ok? ==> |r.value| == |acc|
    ensures r.Ok? ==> forall s :: 0 <= s < |acc| ==> r.value[s] == acc[s] + SpeciesTotal(ps, dem, s)
    decreases |ps|
  {
    if ps == [] then Ok(acc)
    else
      match AddVectors(acc, dem.births(ps[0]))
      case Err(e) => Err(e)
      case Ok(next) =>
        assert forall i :: 0 <= i < |ps| - 1 ==> ps[1..][i] == ps[i + 1];
        BirthsFrom(next, ps[1..], dem)
  }

  /** `births` with its accumulator sized by the number of species: the
      per-species totals over all patches. */
  function Births(nSpecies: nat, ps: seq<Patch>, dem: Demography): (r: Result<seq<nat>>)
    ensures r.Ok? <==> forall i :: 0 <= i < |ps| ==> |dem.births(ps[i])| == nSpecies
    ensures r.Ok? ==> |r.value| == nSpecies
    ensures r.Ok? ==> forall s :: 0 <= s < nSpecies ==> r.value[s] == SpeciesTotal(ps, dem, s)
  {
    BirthsFrom(Fill<nat>(nSpecies, 0), ps, dem)
  }

  /** `births` as written: the accumulator is `std::vector<int> n(size(), 0)`,
      sized by the number of patches, not of species. */
  function BirthsAsWritten(ps: seq<Patch>, dem: Demography): (r: Result<seq<nat>>)
    ensures r.Ok? <==> forall i :: 0 <= i < |ps| ==> |dem.births(ps[i])| == |ps|
  {
    BirthsFrom(Fill<nat>(|ps|, 0), ps, dem)
  }

  /** With one species in two patches, the as-written accumulator has the
      wrong length and the first sum is refused, while the corrected one
      adds the two patches' seeds. */
  lemma BirthsAsWrittenRejectsOneSpeciesTwoPatches(dem: Demography, p0: Patch, p1: Patch)
    requires dem.births(p0) == [3] && dem.births(p1) == [4]
    ensures BirthsAsWritten([p0, p1], dem) == Err(LengthMismatch(2, 1))
    ensures Births(1, [p0, p1], dem) == Ok([7])
  {
    var ps := [p0, p1];
    assert Fill<nat>(2, 0) == [0, 0];
    assert BirthsAsWritten(ps, dem) == Err(LengthMismatch(2, 1));
    assert SpeciesTotal([p1], dem, 0) == 4 by {
      assert [p1][1..] == [];
    }
    assert SpeciesTotal(ps, dem, 0) == 7 by {
      assert ps[1..] == [p1];
    }
    var b := Births(1, ps, dem);
    assert b.Ok?;
    assert |b.value| == 1 && b.value[0] == 7;
    assert b.value == [7];
  }
}
