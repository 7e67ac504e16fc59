/** Buffers addressed by a cursor. A cursor is an index into a buffer; it is
    the Dafny stand-in for the C++ iterators (`ode::iter`, `ode::iter_const`
    and matrix iterators) that the state-vector protocol threads through. */
module Cursor {

  /** A buffer of `n` copies of `x`, as `std::vector<T>(n, x)` allocates it. */
  function Fill<T>(n: nat, x: T): (r: seq<T>)
    ensures |r| == n
    ensures forall k :: 0 <= k < n ==> r[k] == x
  {
    seq(n, _ => x)
  }

  /** Entry `s` of a count vector, zero where the vector is too short. */
  function Entry(v: seq<nat>, s: nat): nat {
    if s < |v| then v[s] else 0
  }

  /** Copies `xs` into `buf` from cursor `it` on, like `std::copy`; every
      other slot keeps its value. */
  function Write<T>(buf: seq<T>, it: nat, xs: seq<T>): (r: seq<T>)
    requires it + |xs| <= |buf|
    ensures |r| == |buf|
    ensures r[..it] == buf[..it]
    ensures r[it..it + |xs|] == xs
    ensures r[it + |xs|..] == buf[it + |xs|..]
  {
    buf[..it] + xs + buf[it + |xs|..]
  }

  /** Two copies one after the other are one copy of the concatenation. */
  lemma WriteTwice<T>(buf: seq<T>, it: nat, xs: seq<T>, ys: seq<T>)
    requires it + |xs| + |ys| <= |buf|
    ensures Write(Write(buf, it, xs), it + |xs|, ys) == Write(buf, it, xs + ys)
  {
    var once := Write(buf, it, xs);
    assert once[..it + |xs|] == buf[..it] + xs by {
      assert once[..it + |xs|] == once[..it] + once[it..it + |xs|];
    }
    assert once[it + |xs| + |ys|..] == buf[it + |xs| + |ys|..] by {
      assert once[it + |xs| + |ys|..] == once[it + |xs|..][|ys|..];
    }
    assert buf[..it] + xs + ys == buf[..it] + (xs + ys);
  }

  /** Filling a whole buffer from its start leaves exactly what was written. */
  lemma WriteWhole<T>(buf: seq<T>, xs: seq<T>)
    requires |xs| == |buf|
    ensures Write(buf, 0, xs) == xs
  {
  }
}
