/** Seed redistribution (metacommunity.h, `add_seeds`): the community's seed
    pool is spread over the patches by sequential binomial draws. Patch after
    patch, each species' remaining seeds are split by a draw with success
    probability 1/j, where j counts the patches not yet served, so the last
    patch draws with probability 1 and takes whatever is left.

    The draw is an oracle. R's `R::rbinom` reads a process-wide generator; here
    a draw is named by `pos`, the number of draws made before it, and the
    contracts pin every share to the draw it came from, so a run is fixed by
    its oracle and its start position. */
module SeedRain {
  import opened Results
  import opened Cursor
  import opened Patches

  /** `Draw(pos, n, p)`: the binomial draw at stream position `pos` with `n`
      trials and success probability `p`. */
  type Draw = (nat, nat, real) -> nat

  /** What the model asks of a binomial sampler: it never returns more than
      `n` successes, and with probability 1 it returns all `n`. */
  ghost predicate ValidDraw(draw: Draw) {
    && (forall pos: nat, n: nat, p: real :: draw(pos, n, p) <= n)
    && (forall pos: nat, n: nat :: draw(pos, n, 1.0) == n)
  }

  /** Seeds of species `s` placed over the patches of an allocation. */
  function Placed(alloc: seq<seq<nat>>, s: nat): nat {
    if alloc == [] then 0
    else Placed(alloc[..|alloc| - 1], s) + Entry(alloc[|alloc| - 1], s)
  }

  /** Row `i` of an allocation follows the sequential binomial schedule of
      `add_seeds`: it has one entry per species, and species `s` is the draw
      at position `pos + i * |seeds| + s`, over the seeds of `s` that the
      earlier patches left, with probability one over the number of patches
      not yet served, `nPatches - i`. */
  ghost predicate Scheduled(alloc: seq<seq<nat>>, seeds: seq<nat>, nPatches: nat, draw: Draw, pos: nat, i: nat) {
    && i < |alloc| && i < nPatches && |alloc[i]| == |seeds|
    && forall s :: 0 <= s < |seeds| ==>
         && Placed(alloc[..i], s) <= seeds[s]
         && alloc[i][s] == draw(pos + i * |seeds| + s, seeds[s] - Placed(alloc[..i], s), 1.0 / ((nPatches - i) as real))
  }

  /** Appending a row leaves the earlier rows' schedule intact. */
  lemma ScheduleKept(alloc: seq<seq<nat>>, share: seq<nat>, seeds: seq<nat>, nPatches: nat, draw: Draw, pos: nat, i: nat)
    requires Scheduled(alloc, seeds, nPatches, draw, pos, i)
    ensures Scheduled(alloc + [share], seeds, nPatches, draw, pos, i)
  {
    assert (alloc + [share])[..i] == alloc[..i];
  }

  /** A row drawn over what the earlier rows left extends a scheduled
      allocation: every row of the longer allocation is scheduled. */
  lemma ScheduleNext(alloc: seq<seq<nat>>, share: seq<nat>, seeds: seq<nat>, remaining: seq<nat>,
                     nPatches: nat, draw: Draw, pos: nat, at: nat)
    requires |alloc| < nPatches && |share| == |seeds| == |remaining|
    requires at == pos + |alloc| * |seeds|
    requires forall q :: 0 <= q < |alloc| ==> Scheduled(alloc, seeds, nPatches, draw, pos, q)
    requires forall s :: 0 <= s < |seeds| ==> Placed(alloc, s) + remaining[s] == seeds[s]
    requires forall s :: 0 <= s < |seeds| ==>
      share[s] == draw(at + s, remaining[s], 1.0 / ((nPatches - |alloc|) as real))
    ensures forall q :: 0 <= q <= |alloc| ==> Scheduled(alloc + [share], seeds, nPatches, draw, pos, q)
  {
    var next := alloc + [share];
    forall q | 0 <= q < |alloc|
      ensures Scheduled(next, seeds, nPatches, draw, pos, q)
    {
      ScheduleKept(alloc, share, seeds, nPatches, draw, pos, q);
    }
    assert next[..|alloc|] == alloc;
    assert next[|alloc|] == share;
    forall s | 0 <= s < |seeds|
      ensures && Placed(next[..|alloc|], s) <= seeds[s]
              && next[|alloc|][s] == draw(pos + |alloc| * |seeds| + s, seeds[s] - Placed(next[..|alloc|], s),
                                          1.0 / ((nPatches - |alloc|) as real))
    {
      assert remaining[s] == seeds[s] - Placed(alloc, s);
    }
    assert Scheduled(next, seeds, nPatches, draw, pos, |alloc|);
  }

  /** One patch's turn: every species' remaining seeds are split by one draw
      with probability `p`, in species order, at consecutive positions from
      `at`. The share and what is left add up to what there was; with `p`
      equal to 1 nothing is left. */
  method DrawShare(remaining: seq<nat>, p: real, draw: Draw, at: nat) returns (share: seq<nat>, left: seq<nat>)
    requires ValidDraw(draw)
    ensures |share| == |remaining| && |left| == |remaining|
    ensures forall t :: 0 <= t < |remaining| ==> share[t] == draw(at + t, remaining[t], p)
    ensures forall t :: 0 <= t < |remaining| ==> share[t] + left[t] == remaining[t]
    ensures p == 1.0 ==> forall t :: 0 <= t < |remaining| ==> left[t] == 0
  {
    share, left := [], remaining;
    var s := 0;
    while s < |remaining|
      invariant 0 <= s <= |remaining| && |share| == s && |left| == |remaining|
      invariant forall t :: 0 <= t < s ==> share[t] == draw(at + t, remaining[t], p)
      invariant forall t :: 0 <= t < s ==> share[t] + left[t] == remaining[t]
      invariant forall t :: s <= t < |remaining| ==> left[t] == remaining[t]
      invariant p == 1.0 ==> forall t :: 0 <= t < s ==> left[t] == 0
    {
      var k := draw(at + s, left[s], p);
      share := share + [k];
      left := left[s := left[s] - k];
      s := s + 1;
    }
  }

  /** `add_seeds` with one decrement of the unserved-patch counter per patch
      and the species loop bounded by the number of species. Every draw
      takes at most what is left, so for every species the seeds placed plus
      the seeds left equal the input; the last patch draws with probability 1,
      so nothing is left when there is at least one patch, and a lone patch
      receives the whole pool. Patch `i` receives row `i` of the allocation,
      and every row follows the sequential binomial schedule (`Scheduled`),
      so the allocation is fixed by the oracle and the start position. */
  method AddSeeds(ps: seq<Patch>, dem: Demography, seeds: seq<nat>, draw: Draw, pos: nat)
    returns (ps': seq<Patch>, alloc: seq<seq<nat>>, remaining: seq<nat>, pos': nat)
    requires ValidDraw(draw)
    ensures |ps'| == |ps| && |alloc| == |ps| && |remaining| == |seeds|
    ensures forall i :: 0 <= i < |ps| ==> |alloc[i]| == |seeds|
    ensures forall i :: 0 <= i < |ps| ==> ps'[i] == dem.addSeeds(ps[i], alloc[i])
    ensures forall s :: 0 <= s < |seeds| ==> Placed(alloc, s) + remaining[s] == seeds[s]
    ensures |ps| > 0 ==> forall s :: 0 <= s < |seeds| ==> remaining[s] == 0
    ensures |ps| == 1 ==> alloc == [seeds]
    ensures forall i :: 0 <= i < |ps| ==> Scheduled(alloc, seeds, |ps|, draw, pos, i)
    ensures pos' == pos + |ps| * |seeds|
  {
    ps', alloc, remaining, pos' := [], [], seeds, pos;
    var unserved := |ps|;
    var i := 0;
    while i < |ps|
      invariant 0 <= i <= |ps| && unserved == |ps| - i
      invariant |ps'| == i && |alloc| == i && |remaining| == |seeds|
      invariant forall q :: 0 <= q < i ==> |alloc[q]| == |seeds|
      invariant forall q :: 0 <= q < i ==> ps'[q] == dem.addSeeds(ps[q], alloc[q])
      invariant forall s :: 0 <= s < |seeds| ==> Placed(alloc, s) + remaining[s] == seeds[s]
      invariant i > 0 && unserved == 0 ==> forall s :: 0 <= s < |seeds| ==> remaining[s] == 0
      invariant forall q :: 0 <= q < i ==> Scheduled(alloc, seeds, |ps|, draw, pos, q)
      invariant pos' == pos + i * |seeds|
    {
      var p := 1.0 / (unserved as real);
      var share, left := DrawShare(remaining, p, draw, pos');
      assert forall t :: 0 <= t < |seeds| ==> Placed(alloc + [share], t) == Placed(alloc, t) + share[t] by {
        assert (alloc + [share])[..|alloc|] == alloc;
      }
      ScheduleNext(alloc, share, seeds, remaining, |ps|, draw, pos, pos');
      ps' := ps' + [dem.addSeeds(ps[i], share)];
      alloc := alloc + [share];
      remaining := left;
      pos' := pos' + |seeds|;
      unserved := unserved - 1;
      i := i + 1;
    }
    if |ps| == 1 {
      assert alloc == [alloc[0]];
      assert forall s :: 0 <= s < |seeds| ==> Placed(alloc, s) == alloc[0][s] by {
        assert alloc[..0] == [];
      }
      assert alloc[0] == seeds;
    }
  }

  // ---------------------------------------------------------------------
  // `add_seeds` as written. Inside the per-species loop the counter `j` is
  // decremented once per iteration (`i++, j--`), not once per patch, and the
  // loop runs to `size()`, the number of patches, over `seeds`, a vector
  // with one entry per species. After the first patch `j` is zero, so the
  // second patch's probability is 1/0; a species index past the end of
  // `seeds` is read whenever there are more patches than species.
  // ---------------------------------------------------------------------

  datatype Fault =
    | SpeciesIndexOutOfRange(species: nat)  // `seeds[i]` with `i` past the last species
    | UndefinedProbability(patch: nat)      // `p = 1.0/(double)j` with `j == 0`

  /** Where an as-written run stops: the shares of the patches served so far,
      the share under construction when a fault stopped it, the seeds left,
      the stream position, and the fault, if any. */
  datatype Run = Run(placed: seq<seq<nat>>, pending: seq<nat>, remaining: seq<nat>, pos: nat, fault: Option<Fault>)

  /** The as-written per-species loop for one patch: `i` runs up to the number
      of patches, and `j` (here `unserved`) drops by one per iteration. */
  function DrawPatchAsWritten(nPatches: nat, i: nat, remaining: seq<nat>, p: real, unserved: int,
                              share: seq<nat>, draw: Draw, pos: nat)
    : (r: (seq<nat>, seq<nat>, int, nat, Option<Fault>))
    requires ValidDraw(draw)
    requires i <= nPatches
    ensures |r.1| == |remaining|
    decreases nPatches - i
  {
    if i == nPatches then (share, remaining, unserved, pos, None)
    else if i >= |remaining| then (share, remaining, unserved, pos, Some(SpeciesIndexOutOfRange(i)))
    else
      var k := draw(pos, remaining[i], p);
      DrawPatchAsWritten(nPatches, i + 1, remaining[i := remaining[i] - k], p, unserved - 1,
                         share + [k], draw, pos + 1)
  }

  /** The as-written loop over patches, from patch `q` on. */
  function SpreadAsWritten(nPatches: nat, q: nat, unserved: int, placed: seq<seq<nat>>,
                           remaining: seq<nat>, draw: Draw, pos: nat): (r: Run)
    requires ValidDraw(draw)
    requires q <= nPatches
    decreases nPatches - q
  {
    if q == nPatches then Run(placed, [], remaining, pos, None)
    else if unserved == 0 then Run(placed, [], remaining, pos, Some(UndefinedProbability(q)))
    else
      var p := 1.0 / (unserved as real);
      var (share, left, unserved', pos', fault) :=
        DrawPatchAsWritten(nPatches, 0, remaining, p, unserved, [], draw, pos);
      if fault.Some? then Run(placed, share, left, pos', fault)
      else SpreadAsWritten(nPatches, q + 1, unserved', placed + [share], left, draw, pos')
  }

  /** `add_seeds` as written, for `nPatches` patches. Whatever the draws, it
      only completes with no patch, or with one patch and at least one
      species. With fewer species than patches the first patch already reads
      past the last species; otherwise the first patch drains `j` to zero and
      the second patch's probability is 1/0. */
  function AddSeedsAsWritten(nPatches: nat, seeds: seq<nat>, draw: Draw, pos: nat): (r: Run)
    requires ValidDraw(draw)
    ensures r.fault.None? <==> nPatches == 0 || (nPatches == 1 && |seeds| >= 1)
    ensures 0 < nPatches && |seeds| < nPatches ==> r.fault == Some(SpeciesIndexOutOfRange(|seeds|))
    ensures 2 <= nPatches <= |seeds| ==> r.fault == Some(UndefinedProbability(1))
  {
    if nPatches == 0 then SpreadAsWritten(nPatches, 0, nPatches, [], seeds, draw, pos)
    else
      var p := 1.0 / (nPatches as real);
      DrawPatchFault(nPatches, 0, seeds, p, nPatches, [], draw, pos);
      var first := DrawPatchAsWritten(nPatches, 0, seeds, p, nPatches, [], draw, pos);
      assert first.4.None? ==>
        SpreadAsWritten(nPatches, 0, nPatches, [], seeds, draw, pos)
          == SpreadAsWritten(nPatches, 1, first.2, [first.0], first.1, draw, first.3);
      SpreadAsWritten(nPatches, 0, nPatches, [], seeds, draw, pos)
  }

  /** The per-species loop for one patch stops early exactly when it reaches
      a species that does not exist; when it completes, `j` has dropped once
      per remaining iteration. */
  lemma {:induction false} DrawPatchFault(nPatches: nat, i: nat, remaining: seq<nat>, p: real,
                                          unserved: int, share: seq<nat>, draw: Draw, pos: nat)
    requires ValidDraw(draw)
    requires i <= nPatches
    ensures var r := DrawPatchAsWritten(nPatches, i, remaining, p, unserved, share, draw, pos);
      r.4 == if i == nPatches || nPatches <= |remaining| then None
             else Some(SpeciesIndexOutOfRange(if i >= |remaining| then i else |remaining|))
    ensures var r := DrawPatchAsWritten(nPatches, i, remaining, p, unserved, share, draw, pos);
      r.4.None? ==> r.2 == unserved - (nPatches - i)
    decreases nPatches - i
  {
    if i < nPatches && i < |remaining| {
      var k := draw(pos, remaining[i], p);
      DrawPatchFault(nPatches, i + 1, remaining[i := remaining[i] - k], p, unserved - 1,
                     share + [k], draw, pos + 1);
    }
  }

  lemma {:induction false} DrawPatchConserves(nPatches: nat, i: nat, remaining: seq<nat>, p: real,
                                              unserved: int, share: seq<nat>, draw: Draw, pos: nat,
                                              seeds: seq<nat>)
    requires ValidDraw(draw)
    requires i <= nPatches
    requires |remaining| == |seeds| && |share| == i
    requires forall s :: 0 <= s < |seeds| ==> Entry(share, s) + remaining[s] == seeds[s]
    ensures var r := DrawPatchAsWritten(nPatches, i, remaining, p, unserved, share, draw, pos);
      forall s :: 0 <= s < |seeds| ==> Entry(r.0, s) + r.1[s] == seeds[s]
    ensures var r := DrawPatchAsWritten(nPatches, i, remaining, p, unserved, share, draw, pos);
      r.4.None? ==> |r.0| == nPatches
    decreases nPatches - i
  {
    if i < nPatches && i < |remaining| {
      var k := draw(pos, remaining[i], p);
      var share' := share + [k];
      var remaining' := remaining[i := remaining[i] - k];
      assert forall s :: 0 <= s < |seeds| ==> Entry(share', s) + remaining'[s] == seeds[s] by {
        forall s | 0 <= s < |seeds| ensures Entry(share', s) + remaining'[s] == seeds[s] {
          if s == i {
            assert Entry(share, s) == 0;
          }
        }
      }
      DrawPatchConserves(nPatches, i + 1, remaining', p, unserved - 1, share', draw, pos + 1, seeds);
    }
  }

  lemma {:induction false} SpreadConserves(nPatches: nat, q: nat, unserved: int, placed: seq<seq<nat>>,
                                           remaining: seq<nat>, draw: Draw, pos: nat, seeds: seq<nat>)
    requires ValidDraw(draw)
    requires q <= nPatches
    requires |remaining| == |seeds|
    requires forall s :: 0 <= s < |seeds| ==> Placed(placed, s) + remaining[s] == seeds[s]
    ensures var r := SpreadAsWritten(nPatches, q, unserved, placed, remaining, draw, pos);
      |r.remaining| == |seeds| &&
      forall s :: 0 <= s < |seeds| ==> Placed(r.placed, s) + Entry(r.pending, s) + r.remaining[s] == seeds[s]
    decreases nPatches - q
  {
    if q < nPatches && unserved != 0 {
      var p := 1.0 / (unserved as real);
      DrawPatchConserves(nPatches, 0, remaining, p, unserved, [], draw, pos, remaining);
      var (share, left, unserved', pos', fault) :=
        DrawPatchAsWritten(nPatches, 0, remaining, p, unserved, [], draw, pos);
      if fault.None? {
        assert forall s :: 0 <= s < |seeds| ==> Placed(placed + [share], s) == Placed(placed, s) + Entry(share, s) by {
          assert (placed + [share])[..|placed|] == placed;
        }
        SpreadConserves(nPatches, q + 1, unserved', placed + [share], left, draw, pos', seeds);
      }
    }
  }

  /** Conservation holds for the as-written code as well, under any draw
      schedule: up to wherever the run stops, the seeds handed out, the share
      being built and the seeds left add up to the input, species by species. */
  lemma AsWrittenConserves(nPatches: nat, seeds: seq<nat>, draw: Draw, pos: nat)
    requires ValidDraw(draw)
    ensures var r := AddSeedsAsWritten(nPatches, seeds, draw, pos);
      |r.remaining| == |seeds| &&
      forall s :: 0 <= s < |seeds| ==> Placed(r.placed, s) + Entry(r.pending, s) + r.remaining[s] == seeds[s]
  {
    SpreadConserves(nPatches, 0, nPatches, [], seeds, draw, pos, seeds);
  }

  /** A valid sampler that never succeeds unless forced to. */
  function Stingy(): Draw {
    (pos: nat, n: nat, p: real) => if p == 1.0 then n else 0
  }

  /** Two patches, two species: the first patch drains `j` to zero, the second
      patch's probability is 1/0, and with a sampler that happens to draw
      nothing for the first patch no seed is placed at all. */
  lemma AsWrittenStrandsSeeds()
    ensures ValidDraw(Stingy())
    ensures AddSeedsAsWritten(2, [10, 10], Stingy(), 0)
         == Run([[0, 0]], [], [10, 10], 2, Some(UndefinedProbability(1)))
  {
    var draw := Stingy();
    assert 1.0 / (2 as real) != 1.0;
    var first := DrawPatchAsWritten(2, 0, [10, 10], 1.0 / (2 as real), 2, [], draw, 0);
    assert first.0 == [0, 0] && first.1 == [10, 10] && first.2 == 0 && first.3 == 2 && first.4 == None by {
      assert [10, 10][0 := 10 - 0] == [10, 10];
      assert [10, 10][1 := 10 - 0] == [10, 10];
    }
  }

  /** Two patches, one species, ten seeds: the loop asks for species 1,
      which does not exist. */
  lemma AsWrittenIndexOutOfRange(draw: Draw)
    requires ValidDraw(draw)
    ensures AddSeedsAsWritten(2, [10], draw, 0).fault == Some(SpeciesIndexOutOfRange(1))
  {
  }

  /** One patch: the probability is 1/1, so the patch takes all of species 0;
      but the species loop stops after one species, so any other species'
      seeds stay in the pool. */
  lemma AsWrittenOnePatch(seeds: seq<nat>, draw: Draw, pos: nat)
    requires ValidDraw(draw)
    requires |seeds| >= 1
    ensures var r := AddSeedsAsWritten(1, seeds, draw, pos);
      r.fault == None && r.placed == [[seeds[0]]] && r.remaining == seeds[0 := 0]
  {
    assert 1.0 / (1 as real) == 1.0;
    var k := draw(pos, seeds[0], 1.0);
    assert k == seeds[0];
    var left := seeds[0 := seeds[0] - k];
    assert DrawPatchAsWritten(1, 1, left, 1.0, 0, [] + [k], draw, pos + 1) == ([] + [k], left, 0, pos + 1, None);
    var inner := DrawPatchAsWritten(1, 0, seeds, 1.0, 1, [], draw, pos);
    assert [] + [k] == [k];
    assert inner == ([k], seeds[0 := seeds[0] - k], 0, pos + 1, None);
    assert [] + [[k]] == [[seeds[0]]];
  }
}
