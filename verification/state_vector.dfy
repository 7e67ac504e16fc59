/** The metacommunity's side of the ODE interface: all patches exposed as one
    flat state vector, patch after patch in index order (metacommunity.h,
    `ode_size`, `ode_values`, `ode_values_set`, `ode_rates`, `derivs`).
    Each operation threads a cursor through the patches exactly as the C++
    loops do; the contracts relate it to `Flatten`, the concatenation of the
    patches' states, which is the order the protocol promises. */
module StateVector {
  import opened Cursor
  import opened Patches
  import Ode

  /** Reference order: the patches' states concatenated in index order. */
  function Flatten(ps: seq<Patch>): seq<real> {
    if ps == [] then [] else ps[0].state + Flatten(ps[1..])
  }

  /** Reference order of the rates: same patches, same order. */
  function FlattenRates(ps: seq<Patch>, g: Growth): (r: seq<real>)
    ensures |r| == |Flatten(ps)|
  {
    if ps == [] then [] else ps[0].Rates(g) + FlattenRates(ps[1..], g)
  }

  /** Two patch lists that differ at most in the values of their states. */
  predicate SameShapes(ps: seq<Patch>, qs: seq<Patch>) {
    |ps| == |qs| && forall i :: 0 <= i < |ps| ==> ps[i].SameShape(qs[i])
  }

  /** `ode_size`: the patches' sizes summed in index order; it is the length
      of the flat vector. */
  function OdeSize(ps: seq<Patch>): (n: nat)
    ensures n == |Flatten(ps)|
  {
    if ps == [] then 0 else ps[0].OdeSize() + OdeSize(ps[1..])
  }

  /** `ode_values`: each patch writes its values at the cursor and passes the
      advanced cursor on. The whole walk is one copy of `Flatten(ps)`. */
  function OdeValues(ps: seq<Patch>, buf: seq<real>, it: nat): (r: (seq<real>, nat))
    requires it + OdeSize(ps) <= |buf|
    ensures r.1 == it + OdeSize(ps)
    ensures r.0 == Write(buf, it, Flatten(ps))
  {
    if ps == [] then (buf, it)
    else
      var (written, next) := ps[0].OdeValues(buf, it);
      WriteTwice(buf, it, ps[0].state, Flatten(ps[1..]));
      OdeValues(ps[1..], written, next)
  }

  /** `ode_rates`: the same walk as `OdeValues`, writing rates. */
  function OdeRates(ps: seq<Patch>, g: Growth, buf: seq<real>, it: nat): (r: (seq<real>, nat))
    requires it + OdeSize(ps) <= |buf|
    ensures r.1 == it + OdeSize(ps)
    ensures r.0 == Write(buf, it, FlattenRates(ps, g))
  {
    if ps == [] then (buf, it)
    else
      var (written, next) := ps[0].OdeRates(g, buf, it);
      WriteTwice(buf, it, ps[0].Rates(g), FlattenRates(ps[1..], g));
      OdeRates(ps[1..], g, written, next)
  }

  /** `ode_values_set`: each patch takes its next values from the cursor.
      Exactly `OdeSize(ps)` values are consumed, every patch keeps its shape,
      and the installed states read back in order are the consumed values. */
  function OdeValuesSet(ps: seq<Patch>, ys: seq<real>, it: nat): (r: (seq<Patch>, nat))
    requires it + OdeSize(ps) <= |ys|
    ensures r.1 == it + OdeSize(ps)
    ensures SameShapes(r.0, ps)
    ensures OdeSize(r.0) == OdeSize(ps)
    ensures Flatten(r.0) == ys[it..r.1]
  {
    if ps == [] then ([], it)
    else
      var (first, next) := ps[0].OdeValuesSet(ys, it);
      var (rest, last) := OdeValuesSet(ps[1..], ys, next);
      assert ([first] + rest)[1..] == rest;
      assert ys[it..last] == ys[it..next] + ys[next..last];
      ([first] + rest, last)
  }

  /** The state vector of the whole community, packed into a fresh buffer as
      `step_deterministic` does before handing it to the solver. */
  function Pack(ps: seq<Patch>): (y: seq<real>)
    ensures y == Flatten(ps)
  {
    var n := OdeSize(ps);
    WriteWhole(Fill(n, 0.0), Flatten(ps));
    OdeValues(ps, Fill(n, 0.0), 0).0
  }

  /** `derivs`: installs `y` into every patch, then reads the rates of the
      updated patches into a buffer of `OdeSize(ps)` slots. */
  function Derivs(ps: seq<Patch>, g: Growth, t: real, y: seq<real>): (r: (seq<Patch>, seq<real>))
    requires OdeSize(ps) <= |y|
    ensures SameShapes(r.0, ps)
    ensures Flatten(r.0) == y[..OdeSize(ps)]
    ensures r.1 == FlattenRates(r.0, g)
    ensures |r.1| == OdeSize(ps)
  {
    var (installed, _) := OdeValuesSet(ps, y, 0);
    var n := OdeSize(ps);
    WriteWhole(Fill(n, 0.0), FlattenRates(installed, g));
    var (dydt, _) := OdeRates(installed, g, Fill(n, 0.0), 0);
    (installed, dydt)
  }

  /** The right-hand side the solver is bound to. A vector too short for the
      community has no rates (the C++ code would read past its end). */
  function RhsOf(ps: seq<Patch>, g: Growth): Ode.Rhs {
    (t: real, y: seq<real>) => if OdeSize(ps) <= |y| then Derivs(ps, g, t, y).1 else []
  }

  /** Position of flat slot `k`: which patch, and which variable inside it. */
  function Locate(ps: seq<Patch>, k: nat): (r: (nat, nat))
    requires k < OdeSize(ps)
    ensures r.0 < |ps| && r.1 < ps[r.0].OdeSize()
  {
    if k < ps[0].OdeSize() then (0, k)
    else
      var (i, o) := Locate(ps[1..], k - ps[0].OdeSize());
      (i + 1, o)
  }

  lemma {:induction false} SameShapesOdeSize(ps: seq<Patch>, qs: seq<Patch>)
    requires SameShapes(ps, qs)
    ensures OdeSize(ps) == OdeSize(qs)
  {
    if ps != [] {
      assert SameShapes(ps[1..], qs[1..]) by {
        forall i | 0 <= i < |ps| - 1 ensures ps[1..][i].SameShape(qs[1..][i]) {
          assert ps[1..][i] == ps[i + 1] && qs[1..][i] == qs[i + 1];
        }
      }
      SameShapesOdeSize(ps[1..], qs[1..]);
    }
  }

  /** Shape and flat values together determine the patches. */
  lemma {:induction false} FlattenDetermines(ps: seq<Patch>, qs: seq<Patch>)
    requires SameShapes(ps, qs)
    requires Flatten(ps) == Flatten(qs)
    ensures ps == qs
  {
    if ps != [] {
      var n := |ps[0].state|;
      assert ps[0].SameShape(qs[0]);
      assert Flatten(ps)[..n] == ps[0].state;
      assert Flatten(qs)[..n] == qs[0].state;
      assert Flatten(ps)[n..] == Flatten(ps[1..]);
      assert Flatten(qs)[n..] == Flatten(qs[1..]);
      assert SameShapes(ps[1..], qs[1..]) by {
        forall i | 0 <= i < |ps| - 1 ensures ps[1..][i].SameShape(qs[1..][i]) {
          assert ps[1..][i] == ps[i + 1] && qs[1..][i] == qs[i + 1];
        }
      }
      FlattenDetermines(ps[1..], qs[1..]);
      assert ps == [ps[0]] + ps[1..] && qs == [qs[0]] + qs[1..];
    }
  }

  lemma {:induction false} LocateFlatten(ps: seq<Patch>, g: Growth, k: nat)
    requires k < OdeSize(ps)
    ensures var (i, o) := Locate(ps, k);
      Flatten(ps)[k] == ps[i].state[o] && FlattenRates(ps, g)[k] == g(ps[i], o)
  {
    if k >= ps[0].OdeSize() {
      LocateFlatten(ps[1..], g, k - ps[0].OdeSize());
    }
  }

  /** `ode_size` is additive over patch order: the size of a list of patches
      is the size of any prefix plus the size of the rest. */
  lemma {:induction false} OdeSizeAppend(ps: seq<Patch>, qs: seq<Patch>)
    ensures OdeSize(ps + qs) == OdeSize(ps) + OdeSize(qs)
  {
    if ps == [] {
      assert ps + qs == qs;
    } else {
      assert (ps + qs)[0] == ps[0];
      assert (ps + qs)[1..] == ps[1..] + qs;
      OdeSizeAppend(ps[1..], qs);
    }
  }

  /** Patches with no state variables contribute nothing to the vector. */
  lemma {:induction false} NoStateNoOdeSize(ps: seq<Patch>)
    requires forall i :: 0 <= i < |ps| ==> ps[i].state == []
    ensures OdeSize(ps) == 0
  {
    if ps != [] {
      assert forall i :: 0 <= i < |ps| - 1 ==> ps[1..][i] == ps[i + 1];
      NoStateNoOdeSize(ps[1..]);
    }
  }

  /** `ode_values`, `ode_rates` and `ode_values_set` walk the patches the same
      way: started at the same cursor they stop at the same cursor, and slot
      `it + k` holds, in both outputs, the value and the rate of one and the
      same variable of one and the same patch. */
  lemma SlotsCorrespond(ps: seq<Patch>, g: Growth, buf: seq<real>, it: nat, k: nat)
    requires it + OdeSize(ps) <= |buf|
    requires k < OdeSize(ps)
    ensures OdeValues(ps, buf, it).1 == OdeRates(ps, g, buf, it).1
    ensures OdeValuesSet(ps, buf, it).1 == OdeValues(ps, buf, it).1
    ensures var (i, o) := Locate(ps, k);
      && OdeValues(ps, buf, it).0[it + k] == ps[i].state[o]
      && OdeRates(ps, g, buf, it).0[it + k] == g(ps[i], o)
  {
    LocateFlatten(ps, g, k);
    var values := OdeValues(ps, buf, it).0;
    var rates := OdeRates(ps, g, buf, it).0;
    assert values[it + k] == values[it..it + OdeSize(ps)][k];
    assert rates[it + k] == rates[it..it + OdeSize(ps)][k];
  }

  /** Reading the values out and setting them back leaves every patch as it
      was, and moves the cursor by `OdeSize(ps)`. */
  lemma GetThenSet(ps: seq<Patch>, buf: seq<real>, it: nat)
    requires it + OdeSize(ps) <= |buf|
    ensures OdeValuesSet(ps, OdeValues(ps, buf, it).0, it) == (ps, it + OdeSize(ps))
  {
    var out := OdeValues(ps, buf, it).0;
    var (qs, _) := OdeValuesSet(ps, out, it);
    assert Flatten(qs) == out[it..it + OdeSize(ps)] == Flatten(ps);
    assert SameShapes(ps, qs) by {
      forall i | 0 <= i < |ps| ensures ps[i].SameShape(qs[i]) {
        assert qs[i].SameShape(ps[i]);
      }
    }
    FlattenDetermines(ps, qs);
  }

  /** Setting the state from a vector and reading it back at any cursor
      returns exactly the consumed part of that vector. */
  lemma SetThenGet(ps: seq<Patch>, ys: seq<real>, it: nat, buf: seq<real>, jt: nat)
    requires it + OdeSize(ps) <= |ys|
    requires jt + OdeSize(ps) <= |buf|
    ensures var qs := OdeValuesSet(ps, ys, it).0;
      OdeValues(qs, buf, jt).0[jt..jt + OdeSize(ps)] == ys[it..it + OdeSize(ps)]
  {
  }

  /** `derivs` ignores its time argument, and the patches' current state
      values: only their shapes and the incoming vector matter. So a solver
      that calls it repeatedly sees one fixed right-hand side per step. */
  lemma DerivsAutonomous(ps: seq<Patch>, qs: seq<Patch>, g: Growth, t1: real, t2: real, y: seq<real>)
    requires SameShapes(ps, qs)
    requires OdeSize(ps) <= |y|
    ensures OdeSize(qs) == OdeSize(ps)
    ensures Derivs(ps, g, t1, y) == Derivs(qs, g, t2, y)
  {
    SameShapesOdeSize(ps, qs);
    var a := Derivs(ps, g, t1, y).0;
    var b := Derivs(qs, g, t2, y).0;
    assert SameShapes(a, b) by {
      forall i | 0 <= i < |a| ensures a[i].SameShape(b[i]) {
        assert a[i].SameShape(ps[i]) && ps[i].SameShape(qs[i]) && b[i].SameShape(qs[i]);
      }
    }
    FlattenDetermines(a, b);
  }
}
