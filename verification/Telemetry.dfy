/** Distances between telemetry sequences. */
module Telemetry {
  import opened Prelude

  function L1(a: seq<int>, b: seq<int>): (r: nat)
    requires |a| == |b|
  {
    if a == [] then 0 else Abs(a[0] - b[0]) + L1(a[1..], b[1..])
  }

  lemma {:induction false} L1Symmetric(a: seq<int>, b: seq<int>)
    requires |a| == |b|
    ensures L1(a, b) == L1(b, a)
  {
    if a != [] {
      L1Symmetric(a[1..], b[1..]);
    }
  }

  lemma {:induction false} L1Triangle(a: seq<int>, b: seq<int>, c: seq<int>)
    requires |a| == |b| == |c|
    ensures L1(a, c) <= L1(a, b) + L1(b, c)
  {
    if a != [] {
      L1Triangle(a[1..], b[1..], c[1..]);
    }
  }

  lemma {:induction false} L1ZeroExactly(a: seq<int>, b: seq<int>)
    requires |a| == |b|
    ensures L1(a, b) == 0 <==> a == b
  {
    if a != [] {
      L1ZeroExactly(a[1..], b[1..]);
      assert a == [a[0]] + a[1..] && b == [b[0]] + b[1..];
    }
  }

  /** A pointwise bound on the difference bounds the distance by the sum of the bounds. */
  lemma {:induction false} L1Within(a: seq<int>, b: seq<int>, bounds: seq<int>)
    requires |a| == |b| == |bounds|
    requires forall i :: 0 <= i < |a| ==> Abs(a[i] - b[i]) <= bounds[i]
    ensures L1(a, b) <= Sum(bounds)
  {
    if a != [] {
      L1Within(a[1..], b[1..], bounds[1..]);
    }
  }

  /** Moving every point farther from the reference moves the sequence farther. */
  lemma {:induction false} L1Farther(near: seq<int>, far: seq<int>, origin: seq<int>)
    requires |near| == |far| == |origin|
    requires forall i :: 0 <= i < |near| ==> Abs(near[i] - origin[i]) <= Abs(far[i] - origin[i])
    ensures L1(near, origin) <= L1(far, origin)
  {
    if near != [] {
      L1Farther(near[1..], far[1..], origin[1..]);
    }
  }

  /** A signature more than twice the error away from the truth leaves a strictly larger residual. */
  lemma Decodes(observed: seq<int>, truth: seq<int>, other: seq<int>, bound: nat)
    requires |observed| == |truth| == |other|
    requires L1(observed, truth) <= bound && L1(truth, other) > 2 * bound
    ensures L1(observed, other) > bound >= L1(observed, truth)
  {
    L1Triangle(truth, observed, other);
    L1Symmetric(truth, observed);
  }
}
