/** The host-facing surface of the metacommunity (metacommunity.h,
    `r_add_seedlings`, `r_n_individuals`, `r_clear`): species-by-patch count
    matrices in and out, with rows for species and columns for patches. */
module RInterface {
  import opened Results
  import opened Cursor
  import opened Patches
  import opened StateVector
  import opened Matrices
  import opened Metacommunities
  import Ode

  /** `r_add_seedlings`: the column count must equal the number of patches
      and then the row count the number of species, checked in that order
      before any patch changes; on success patch `i` gets column `i`, so the
      seedlings of species `s` for patch `i` are the matrix entry (s, i), and
      nothing else changes. */
  method RAddSeedlings(mc: Metacommunity, dem: Demography, m: IntMatrix) returns (r: Result<Metacommunity>)
    requires m.Valid()
    ensures m.ncol != |mc.patches| ==> r == Err(LengthMismatch(|mc.patches|, m.ncol))
    ensures m.ncol == |mc.patches| && m.nrow != mc.NSpecies() ==> r == Err(LengthMismatch(mc.NSpecies(), m.nrow))
    ensures r.Ok? <==> m.ncol == |mc.patches| && m.nrow == mc.NSpecies()
    ensures r.Ok? ==> && r.value.params == mc.params && r.value.age == mc.age && r.value.solver == mc.solver
                      && |r.value.patches| == |mc.patches|
    ensures r.Ok? ==> forall i :: 0 <= i < |mc.patches| ==>
      r.value.patches[i] == dem.addSeedlings(mc.patches[i], m.Column(i))
  {
    if m.ncol != |mc.patches| {
      return Err(LengthMismatch(|mc.patches|, m.ncol));
    }
    if m.nrow != mc.NSpecies() {
      return Err(LengthMismatch(mc.NSpecies(), m.nrow));
    }
    var ps := mc.patches;
    var i := 0;
    while i < |ps|
      invariant 0 <= i <= |ps| == |mc.patches|
      invariant forall q :: 0 <= q < i ==> ps[q] == dem.addSeedlings(mc.patches[q], m.Column(q))
      invariant forall q :: i <= q < |ps| ==> ps[q] == mc.patches[q]
    {
      ps := ps[i := dem.addSeedlings(ps[i], m.Column(i))];
      i := i + 1;
    }
    r := Ok(mc.(patches := ps));
  }

  /** The patches' count vectors, one after the other. */
  function CountsOf(ps: seq<Patch>): seq<int> {
    if ps == [] then []
    else
      var c: seq<int> := ps[0].counts;
      c + CountsOf(ps[1..])
  }

  /** The copy loop of `r_n_individuals`: each patch's counts are copied at
      the matrix iterator, which then moves past them. A copy that would run
      past the end of the matrix is refused. */
  function CopyCounts(ps: seq<Patch>, buf: seq<int>, it: nat): (r: Result<seq<int>>)
    requires it <= |buf|
    ensures r.Ok? <==> it + |CountsOf(ps)| <= |buf|
    ensures r.Ok? ==> r.value == Write(buf, it, CountsOf(ps))
    decreases |ps|
  {
    if ps == [] then Ok(buf)
    else if it + |ps[0].counts| > |buf| then Err(BufferOverrun)
    else
      var c: seq<int> := ps[0].counts;
      var rest := CopyCounts(ps[1..], Write(buf, it, c), it + |c|);
      if it + |CountsOf(ps)| <= |buf| then
        WriteTwice(buf, it, c, CountsOf(ps[1..]));
        rest
      else rest
  }

  /** Every patch reports `w` counts. */
  predicate Uniform(ps: seq<Patch>, w: nat) {
    forall i :: 0 <= i < |ps| ==> |ps[i].counts| == w
  }

  lemma MulSplit(a: nat, b: nat, w: nat)
    ensures (a + b) * w == a * w + b * w
  {
  }

  lemma {:induction false} CountsOfLength(ps: seq<Patch>, w: nat)
    requires Uniform(ps, w)
    ensures |CountsOf(ps)| == |ps| * w
  {
    if ps != [] {
      assert Uniform(ps[1..], w) by {
        assert forall i :: 0 <= i < |ps| - 1 ==> ps[1..][i] == ps[i + 1];
      }
      CountsOfLength(ps[1..], w);
      MulSplit(1, |ps| - 1, w);
    }
  }

  lemma {:induction false} CountsOfIndex(ps: seq<Patch>, w: nat, p: nat, s: nat)
    requires Uniform(ps, w)
    requires p < |ps| && s < w
    ensures p * w + s < |CountsOf(ps)|
    ensures CountsOf(ps)[p * w + s] == ps[p].counts[s]
  {
    var c: seq<int> := ps[0].counts;
    assert CountsOf(ps) == c + CountsOf(ps[1..]);
    if p == 0 {
      assert p * w + s == s;
    } else {
      assert Uniform(ps[1..], w) by {
        assert forall i :: 0 <= i < |ps| - 1 ==> ps[1..][i] == ps[i + 1];
      }
      CountsOfIndex(ps[1..], w, p - 1, s);
      MulSplit(1, p - 1, w);
      var k := (p - 1) * w + s;
      assert p * w + s == w + k;
      assert ps[1..][p - 1] == ps[p];
    }
  }

  /** When every patch reports `w` counts, the copied counts are laid out
      patch by patch, `w` slots each: as a `w`-row matrix, column `p` is
      patch `p`'s counts. */
  lemma CountsLaidOut(ps: seq<Patch>, w: nat)
    ensures Uniform(ps, w) ==> |CountsOf(ps)| == w * |ps|
    ensures Uniform(ps, w) ==> forall p, s :: 0 <= p < |ps| && 0 <= s < w ==>
      IntMatrix(w, |ps|, CountsOf(ps)).At(s, p) == ps[p].counts[s]
  {
    if Uniform(ps, w) {
      CountsOfLength(ps, w);
      var m := IntMatrix(w, |ps|, CountsOf(ps));
      forall p, s | 0 <= p < |ps| && 0 <= s < w
        ensures m.At(s, p) == ps[p].counts[s]
      {
        CountsOfIndex(ps, w, p, s);
      }
    }
  }

  /** `r_n_individuals`: an `n_species` by `n_patches` matrix filled column
      by column from the patches in order. When every patch reports one count
      per species, entry (s, p) is patch `p`'s count of species `s`. */
  function RNIndividuals(mc: Metacommunity): (r: Result<IntMatrix>)
    ensures r.Ok? ==> r.value.nrow == mc.NSpecies() && r.value.ncol == |mc.patches| && r.value.Valid()
    ensures mc.Valid() ==> r.Ok?
    ensures mc.Valid() ==> forall s, p :: 0 <= s < mc.NSpecies() && 0 <= p < |mc.patches| ==>
      r.value.At(s, p) == mc.patches[p].counts[s]
  {
    var nrow := mc.NSpecies();
    var ncol := |mc.patches|;
    CountsLaidOut(mc.patches, nrow);
    match CopyCounts(mc.patches, Fill(nrow * ncol, 0), 0)
    case Err(e) => Err(e)
    case Ok(data) =>
      assert mc.Valid() ==> data == CountsOf(mc.patches) by {
        if mc.Valid() {
          WriteWhole(Fill(nrow * ncol, 0), CountsOf(mc.patches));
        }
      }
      Ok(IntMatrix(nrow, ncol, data))
  }

  /** `r_clear`: age zero, every patch emptied (its number of species kept),
      the same number of patches, an empty state vector, and a solver with
      no step history. */
  function RClear(mc: Metacommunity): (r: Metacommunity)
    ensures r.params == mc.params && r.age == 0.0 && r.solver == Ode.Fresh()
    ensures |r.patches| == |mc.patches|
    ensures forall i :: 0 <= i < |r.patches| ==>
      && r.patches[i].age == 0.0 && r.patches[i].state == []
      && |r.patches[i].counts| == |mc.patches[i].counts|
    ensures forall i, s :: 0 <= i < |r.patches| && 0 <= s < |r.patches[i].counts| ==> r.patches[i].counts[s] == 0
    ensures OdeSize(r.patches) == 0
    ensures mc.Valid() ==> r.Valid()
  {
    var cleared := seq(|mc.patches|, i requires 0 <= i < |mc.patches| => mc.patches[i].Cleared());
    NoStateNoOdeSize(cleared);
    mc.(age := 0.0, patches := cleared, solver := Ode.Fresh())
  }

  /** After `r_clear`, `r_n_individuals` reports zero everywhere. */
  lemma ClearedCountsAreZero(mc: Metacommunity)
    requires mc.Valid()
    ensures RNIndividuals(RClear(mc)).Ok?
    ensures forall s, p :: 0 <= s < mc.NSpecies() && 0 <= p < |mc.patches| ==>
      RNIndividuals(RClear(mc)).value.At(s, p) == 0
  {
  }
}
