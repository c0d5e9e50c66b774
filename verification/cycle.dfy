/** The infinite generator `cycle(xs)` of resources/main.js: it yields
    `xs[i]` and then advances `i` to `(i + 1) % xs.length`, forever. */
module Cycle {
  import opened Optional

  /** The value the generator yields on its k-th draw (counting from 0). */
  function Draw<T>(xs: seq<T>, k: nat): (r: T)
    requires |xs| > 0
    ensures r in xs
  {
    xs[k % |xs|]
  }

  /** The positions read by the `n` draws that follow the first `start`
      draws, over a sequence of length `n`. */
  function Window(n: nat, start: nat): (w: seq<nat>)
    requires n > 0
    ensures |w| == n && forall j :: 0 <= j < n ==> w[j] < n
  {
    seq(n, j requires 0 <= j < n => (start + j) % n)
  }

  /** A product of a positive factor and a factor of at least one is at
      least the positive factor. */
  lemma MulAtLeast(d: int, n: int)
    requires d >= 1 && n > 0
    ensures d * n >= n
  {
    if d > 1 {
      MulAtLeast(d - 1, n);
      assert d * n == (d - 1) * n + n;
    }
  }

  /** Euclidean division is unique: a quotient and remainder that rebuild
      `a` are the ones Dafny's `/` and `%` return. */
  lemma DivModUnique(a: int, n: int, q: int, r: int)
    requires n > 0 && 0 <= r < n && a == q * n + r
    ensures a / n == q && a % n == r
  {
    var q', r' := a / n, a % n;
    assert a == q' * n + r';
    assert (q - q') * n == r' - r by {
      assert q * n - q' * n == (q - q') * n;
    }
    if q > q' {
      MulAtLeast(q - q', n);
    } else if q < q' {
      MulAtLeast(q' - q, n);
    }
  }

  /** Advancing the index as the generator does keeps it equal to the
      number of draws modulo the length. */
  lemma AdvanceIndex(d: nat, n: nat)
    requires n > 0
    ensures (d % n + 1) % n == (d + 1) % n
  {
    var q, i := d / n, d % n;
    assert d == q * n + i;
    if i + 1 < n {
      DivModUnique(d + 1, n, q, i + 1);
      DivModUnique(i + 1, n, 0, i + 1);
    } else {
      DivModUnique(d + 1, n, q + 1, 0);
      DivModUnique(i + 1, n, 1, 0);
    }
  }

  /** Draw `k` and draw `k + |xs|` yield the same element: the generator is
      periodic with period `|xs|`. */
  lemma DrawPeriodic<T>(xs: seq<T>, k: nat)
    requires |xs| > 0
    ensures Draw(xs, k + |xs|) == Draw(xs, k)
  {
    var n := |xs|;
    assert k == (k / n) * n + k % n;
    assert k + n == (k / n + 1) * n + k % n;
    DivModUnique(k + n, n, k / n + 1, k % n);
  }

  /** Any `n` consecutive draws over a sequence of length `n` read every
      position exactly once: no two draws of the window share a position,
      and every position is read by some draw of the window. */
  lemma WindowVisitsEachOnce(n: nat, start: nat)
    requires n > 0
    ensures forall j, k :: 0 <= j < k < n ==> Window(n, start)[j] != Window(n, start)[k]
    ensures forall p :: 0 <= p < n ==> p in Window(n, start)
  {
    var w := Window(n, start);
    var s, q := start % n, start / n;
    assert start == q * n + s;
    forall j, k | 0 <= j < k < n
      ensures w[j] != w[k]
    {
      if s + j < n {
        DivModUnique(start + j, n, q, s + j);
      } else {
        DivModUnique(start + j, n, q + 1, s + j - n);
      }
      if s + k < n {
        DivModUnique(start + k, n, q, s + k);
      } else {
        DivModUnique(start + k, n, q + 1, s + k - n);
      }
    }
    forall p | 0 <= p < n
      ensures p in w
    {
      var j := if s <= p then p - s else p + n - s;
      if s <= p {
        DivModUnique(start + j, n, q, p);
      } else {
        DivModUnique(start + j, n, q + 1, p);
      }
      assert w[j] == p;
    }
  }

  /** The same fact stated about draws: draws `start .. start + |xs| - 1`
      read `xs` at the positions of `Window(|xs|, start)`, which are pairwise
      distinct and cover every position. */
  lemma ConsecutiveDrawsVisitEachOnce<T>(xs: seq<T>, start: nat)
    requires |xs| > 0
    ensures forall j :: 0 <= j < |xs| ==> Draw(xs, start + j) == xs[Window(|xs|, start)[j]]
    ensures forall j, k :: 0 <= j < k < |xs| ==> Window(|xs|, start)[j] != Window(|xs|, start)[k]
    ensures forall p :: 0 <= p < |xs| ==> p in Window(|xs|, start)
  {
    WindowVisitsEachOnce(|xs|, start);
  }

  /** The generator object: the sequence it cycles over and its index `i`.
      `Drawn` counts the values yielded so far. */
  class CycleIterator<T> {
    const xs: seq<T>
    var i: nat
    ghost var Drawn: nat

    /** The index always points at the element of the next draw. */
    ghost predicate Valid()
      reads this
    {
      if |xs| == 0 then i == 0 else i == Drawn % |xs|
    }

    constructor (xs: seq<T>)
      ensures Valid() && this.xs == xs && Drawn == 0
    {
      this.xs := xs;
      i := 0;
      Drawn := 0;
    }

    /** `imageCycle.next().value`: the element at the index, after which the
        index advances modulo the length. Over an empty sequence the script
        yields `undefined` forever, which is `None` here. */
    method Next() returns (x: Option<T>)
      requires Valid()
      modifies this
      ensures Valid() && Drawn == old(Drawn) + 1
      ensures |xs| == 0 ==> x == None
      ensures |xs| > 0 ==> x == Some(Draw(xs, old(Drawn))) && i < |xs|
    {
      if |xs| == 0 {
        x := None;
      } else {
        x := Some(xs[i]);
        AdvanceIndex(Drawn, |xs|);
        i := (i + 1) % |xs|;
      }
      Drawn := Drawn + 1;
    }
  }
}
