/**
 * The combination enumerator: `cartesianProduct`, a left fold of `flatMap` over the
 * per-layer lists, and its reference description as a mixed-radix (odometer) counter
 * whose first position is the most significant digit and whose last position turns fastest.
 */
module Enumerator {

  /** Product of the layer sizes: the number of combinations. */
  function Product(c: seq<nat>): nat
  {
    if c == [] then 1 else Product(c[..|c| - 1]) * c[|c| - 1]
  }

  predicate AllPositive(c: seq<nat>)
  {
    forall k :: 0 <= k < |c| ==> c[k] > 0
  }

  function Lengths<T>(arr: seq<seq<T>>): seq<nat>
  {
    seq(|arr|, k requires 0 <= k < |arr| => |arr[k]|)
  }

  // ---------------------------------------------------------------------------
  // The fold, as the source writes it

  /** `b.map(e => [].concat(d, e))`: the tuple `d` followed by each choice of `b`. */
  function Row<T>(d: seq<T>, b: seq<T>): seq<seq<T>>
  {
    seq(|b|, j requires 0 <= j < |b| => d + [b[j]])
  }

  /** `a.flatMap(d => Row(d, b))`: one reduction step of the fold. */
  function Extend<T>(a: seq<seq<T>>, b: seq<T>): (r: seq<seq<T>>)
    ensures |r| == |a| * |b|
  {
    if a == [] then [] else
      var rest := Extend(a[1..], b);
      assert |a| * |b| == |b| + (|a| - 1) * |b|;
      Row(a[0], b) + rest
  }

  /** `arr.reduce((a, b) => Extend(a, b), [[]])`. */
  function CartesianProduct<T>(arr: seq<seq<T>>): (r: seq<seq<T>>)
    ensures |r| == Product(Lengths(arr))
    ensures arr == [] ==> r == [[]]
    decreases |arr|
  {
    if arr == [] then [[]] else
      var init := arr[..|arr| - 1];
      assert Lengths(init) == Lengths(arr)[..|arr| - 1];
      Extend(CartesianProduct(init), arr[|arr| - 1])
  }

  /** Entry `i * |b| + j` of a reduction step is tuple `i` of the accumulator extended by choice `j`. */
  lemma {:induction false} ExtendAt<T>(a: seq<seq<T>>, b: seq<T>, i: nat, j: nat)
    requires i < |a| && j < |b|
    ensures i * |b| + j < |Extend(a, b)|
    ensures Extend(a, b)[i * |b| + j] == a[i] + [b[j]]
  {
    assert |a| * |b| == |b| + (|a| - 1) * |b|;
    if i > 0 {
      ExtendAt(a[1..], b, i - 1, j);
      assert i * |b| + j == |b| + ((i - 1) * |b| + j);
    }
  }

  // ---------------------------------------------------------------------------
  // The odometer: a reference description of the enumeration order

  /** The digits of `p` in the mixed radix `c`, most significant first. */
  function Odometer(p: nat, c: seq<nat>): (t: seq<nat>)
    requires AllPositive(c)
    ensures |t| == |c|
    ensures forall k :: 0 <= k < |c| ==> t[k] < c[k]
    decreases |c|
  {
    if c == [] then [] else Odometer(p / c[|c| - 1], c[..|c| - 1]) + [p % c[|c| - 1]]
  }

  /** A tuple with one in-range entry per layer. */
  predicate InRange(t: seq<nat>, c: seq<nat>)
  {
    |t| == |c| && forall k :: 0 <= k < |c| ==> t[k] < c[k]
  }

  /** The position of tuple `t` in the mixed radix `c`. */
  function OdometerValue(t: seq<nat>, c: seq<nat>): (p: nat)
    requires InRange(t, c)
    ensures p < Product(c)
  {
    if c == [] then 0 else
      var n := |c| - 1;
      var v := OdometerValue(t[..n], c[..n]);
      MulAddBound(v, t[n], Product(c[..n]), c[n]);
      v * c[n] + t[n]
  }

  lemma MulMonotone(a: nat, b: nat, m: nat)
    requires a <= b
    ensures a * m <= b * m
  {
    var e: nat := b - a;
    assert b * m == a * m + e * m;
  }

  lemma DivModSplit(p: nat, m: nat)
    requires 0 < m
    ensures p == (p / m) * m + p % m && p % m < m
  {
  }

  lemma MulSucc(a: nat, m: nat)
    ensures (a + 1) * m == a * m + m
  {
  }

  lemma MulCancelLess(a: nat, b: nat, m: nat)
    requires a * m < b * m
    ensures a < b
  {
    if b <= a {
      MulMonotone(b, a, m);
    }
  }

  lemma MulAddBound(v: nat, d: nat, p: nat, m: nat)
    requires v < p && d < m
    ensures v * m + d < p * m
  {
    MulMonotone(v + 1, p, m);
    assert (v + 1) * m == v * m + m;
  }

  lemma DivModOfMulAdd(v: nat, d: nat, m: nat)
    requires d < m
    ensures (v * m + d) / m == v && (v * m + d) % m == d
  {
    var n := v * m + d;
    var q, r := n / m, n % m;
    assert n == q * m + r && r < m;
    assert (q + 1) * m == q * m + m;
    assert (v + 1) * m == v * m + m;
    MulCancelLess(v, q + 1, m);
    MulCancelLess(q, v + 1, m);
  }

  lemma DivBelow(p: nat, q: nat, m: nat)
    requires 0 < m && p < q * m
    ensures p / m < q
  {
    assert (p / m) * m + p % m == p;
    MulCancelLess(p / m, q, m);
  }

  lemma DivMonotone(p: nat, q: nat, m: nat)
    requires 0 < m && p <= q
    ensures p / m <= q / m
  {
    assert (p / m) * m + p % m == p;
    assert (q / m) * m + q % m == q;
    MulSucc(q / m, m);
    if q / m < p / m {
      MulMonotone(q / m + 1, p / m, m);
    }
  }

  /** Reading the digits of a tuple as a number and counting it out again gives the tuple. */
  lemma {:induction false} OdometerOfValue(t: seq<nat>, c: seq<nat>)
    requires InRange(t, c)
    ensures AllPositive(c) && Odometer(OdometerValue(t, c), c) == t
  {
    if c != [] {
      var n := |c| - 1;
      OdometerOfValue(t[..n], c[..n]);
      DivModOfMulAdd(OdometerValue(t[..n], c[..n]), t[n], c[n]);
    }
  }

  /** Counting out `p` and reading the digits back gives `p`, for every position of the product. */
  lemma {:induction false} ValueOfOdometer(p: nat, c: seq<nat>)
    requires AllPositive(c) && p < Product(c)
    ensures OdometerValue(Odometer(p, c), c) == p
    decreases |c|
  {
    if c != [] {
      var n := |c| - 1;
      var t := Odometer(p, c);
      DivModSplit(p, c[n]);
      DivBelow(p, Product(c[..n]), c[n]);
      ValueOfOdometer(p / c[n], c[..n]);
      assert t[..n] == Odometer(p / c[n], c[..n]);
      assert OdometerValue(t, c) == OdometerValue(t[..n], c[..n]) * c[n] + t[n];
    }
  }

  /** `t` comes before `u` in lexicographic order: they agree up to `k` and `t` is smaller at `k`. */
  predicate FirstSmallerAt(t: seq<nat>, u: seq<nat>, k: nat)
  {
    k < |t| && k < |u| && t[..k] == u[..k] && t[k] < u[k]
  }

  predicate LexLess(t: seq<nat>, u: seq<nat>)
  {
    exists k: nat | k < |t| :: FirstSmallerAt(t, u, k)
  }

  /** Counting up never goes back: a later position has a lexicographically larger digit tuple. */
  lemma {:induction false} OdometerIncreasing(p: nat, q: nat, c: seq<nat>)
    requires AllPositive(c) && p < q < Product(c)
    ensures LexLess(Odometer(p, c), Odometer(q, c))
    decreases |c|
  {
    var n := |c| - 1;
    var m := c[n];
    DivMonotone(p, q, m);
    if p / m == q / m {
      LastDigitDecides(p, q, c);
    } else {
      DivBelow(q, Product(c[..n]), m);
      OdometerIncreasing(p / m, q / m, c[..n]);
      var k: nat :| k < n && FirstSmallerAt(Odometer(p / m, c[..n]), Odometer(q / m, c[..n]), k);
      FirstSmallerExtends(Odometer(p / m, c[..n]), Odometer(q / m, c[..n]), p % m, q % m, k);
    }
  }

  lemma LastDigitDecides(p: nat, q: nat, c: seq<nat>)
    requires AllPositive(c) && c != [] && p < q
    requires p / c[|c| - 1] == q / c[|c| - 1]
    ensures FirstSmallerAt(Odometer(p, c), Odometer(q, c), |c| - 1)
  {
    var m := c[|c| - 1];
    assert (p / m) * m + p % m == p;
    assert (q / m) * m + q % m == q;
  }

  lemma FirstSmallerExtends(t: seq<nat>, u: seq<nat>, x: nat, y: nat, k: nat)
    requires FirstSmallerAt(t, u, k)
    ensures FirstSmallerAt(t + [x], u + [y], k)
  {
    assert (t + [x])[..k] == t[..k];
    assert (u + [y])[..k] == u[..k];
  }

  // ---------------------------------------------------------------------------
  // The product of the layers' index lists, which is what the bulk generator enumerates

  /** `[0, 1, ..., n - 1]`: `images.map((_, i) => i)`. */
  function Range(n: nat): seq<nat>
  {
    seq(n, i => i)
  }

  /** The per-layer index lists for layers of sizes `c`. */
  function IndexLists(c: seq<nat>): seq<seq<nat>>
  {
    seq(|c|, k requires 0 <= k < |c| => Range(c[k]))
  }

  /** All index tuples for layers of sizes `c`, in the order the fold produces them. */
  function Combos(c: seq<nat>): seq<seq<nat>>
  {
    CartesianProduct(IndexLists(c))
  }

  lemma LengthsOfIndexLists(c: seq<nat>)
    ensures Lengths(IndexLists(c)) == c
  {
  }

  /** There are exactly as many combinations as the product of the layer sizes. */
  lemma CombosLength(c: seq<nat>)
    ensures |Combos(c)| == Product(c)
  {
    LengthsOfIndexLists(c);
  }

  /** One more layer: combination `i * m + j` is combination `i` of the lower layers, then index `j`. */
  lemma CombosStep(c: seq<nat>, i: nat, j: nat)
    requires c != [] && i < |Combos(c[..|c| - 1])| && j < c[|c| - 1]
    ensures i * c[|c| - 1] + j < |Combos(c)|
    ensures Combos(c)[i * c[|c| - 1] + j] == Combos(c[..|c| - 1])[i] + [j]
  {
    var n := |c| - 1;
    LengthsOfIndexLists(c[..n]);
    assert IndexLists(c)[..n] == IndexLists(c[..n]);
    assert Combos(c) == Extend(Combos(c[..n]), Range(c[n]));
    ExtendAt(Combos(c[..n]), Range(c[n]), i, j);
  }

  /** The `p`-th combination is the odometer reading `p`: first layer most significant, last fastest. */
  lemma {:induction false} CombosAt(c: seq<nat>, p: nat)
    requires AllPositive(c) && p < Product(c)
    ensures |Combos(c)| == Product(c)
    ensures Combos(c)[p] == Odometer(p, c)
  {
    LengthsOfIndexLists(c);
    if c != [] {
      var n := |c| - 1;
      var m := c[n];
      DivModSplit(p, m);
      DivBelow(p, Product(c[..n]), m);
      CombosAt(c[..n], p / m);
      CombosStep(c, p / m, p % m);
    }
  }

  /**
   * For lists of any kind, tuple `p` takes from each list the entry that the odometer reading
   * `p` names: the fold enumerates the choices of one entry per list, the last list fastest.
   */
  lemma {:induction false} CartesianProductAt<T>(arr: seq<seq<T>>, p: nat)
    requires AllPositive(Lengths(arr)) && p < Product(Lengths(arr))
    ensures |CartesianProduct(arr)[p]| == |arr|
    ensures forall k :: 0 <= k < |arr| ==>
      CartesianProduct(arr)[p][k] == arr[k][Odometer(p, Lengths(arr))[k]]
    decreases |arr|
  {
    if arr != [] {
      var n := |arr| - 1;
      var init := arr[..n];
      var c := Lengths(arr);
      var m := |arr[n]|;
      assert Lengths(init) == c[..n];
      DivModSplit(p, m);
      DivBelow(p, Product(c[..n]), m);
      CartesianProductAt(init, p / m);
      ExtendAt(CartesianProduct(init), arr[n], p / m, p % m);
      assert Odometer(p, c) == Odometer(p / m, c[..n]) + [p % m];
    }
  }

  /** Every combination has one entry per layer, each a valid index into that layer. */
  lemma CombosInRange(c: seq<nat>, p: nat)
    requires AllPositive(c) && p < |Combos(c)|
    ensures InRange(Combos(c)[p], c)
  {
    LengthsOfIndexLists(c);
    CombosAt(c, p);
  }

  /** Every possible assignment of indices appears, at the position its odometer value names. */
  lemma CombosComplete(c: seq<nat>, t: seq<nat>)
    requires InRange(t, c)
    ensures OdometerValue(t, c) < |Combos(c)| && Combos(c)[OdometerValue(t, c)] == t
  {
    OdometerOfValue(t, c);
    CombosAt(c, OdometerValue(t, c));
  }

  /** No assignment appears twice: the enumeration is strictly increasing in lexicographic order. */
  lemma CombosIncreasing(c: seq<nat>, p: nat, q: nat)
    requires AllPositive(c) && p < q < |Combos(c)|
    ensures LexLess(Combos(c)[p], Combos(c)[q])
    ensures Combos(c)[p] != Combos(c)[q]
  {
    LengthsOfIndexLists(c);
    CombosAt(c, p);
    CombosAt(c, q);
    OdometerIncreasing(p, q, c);
    var k: nat :| k < |c| && FirstSmallerAt(Combos(c)[p], Combos(c)[q], k);
  }

  /** The product of positive sizes is positive: a run with non-empty layers has work to do. */
  lemma {:induction false} ProductPositive(c: seq<nat>)
    requires AllPositive(c)
    ensures Product(c) >= 1
  {
    if c != [] {
      ProductPositive(c[..|c| - 1]);
    }
  }

  /** A layer with no images leaves nothing to enumerate. */
  lemma {:induction false} ProductZero(c: seq<nat>, k: nat)
    requires k < |c| && c[k] == 0
    ensures Product(c) == 0 && Combos(c) == []
  {
    LengthsOfIndexLists(c);
    if k < |c| - 1 {
      ProductZero(c[..|c| - 1], k);
    }
  }
}
