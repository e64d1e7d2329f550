/** Finite sums of real-valued functions over sequences. */
module RealSums {

  function SumOf<T>(s: seq<T>, f: T -> real): real {
    if s == [] then 0.0 else f(s[0]) + SumOf(s[1..], f)
  }

  lemma {:induction false} SumSame<T>(s: seq<T>, f: T -> real, g: T -> real)
    requires forall x :: x in s ==> f(x) == g(x)
    ensures SumOf(s, f) == SumOf(s, g)
  {
    if s != [] {
      SumSame(s[1..], f, g);
    }
  }

  lemma {:induction false} SumPlus<T>(s: seq<T>, f: T -> real, g: T -> real, h: T -> real)
    requires forall x :: x in s ==> h(x) == f(x) + g(x)
    ensures SumOf(s, h) == SumOf(s, f) + SumOf(s, g)
  {
    if s != [] {
      SumPlus(s[1..], f, g, h);
    }
  }

  lemma {:induction false} SumTimes<T>(s: seq<T>, c: real, f: T -> real, g: T -> real)
    requires forall x :: x in s ==> g(x) == c * f(x)
    ensures SumOf(s, g) == c * SumOf(s, f)
  {
    if s != [] {
      SumTimes(s[1..], c, f, g);
      assert c * (f(s[0]) + SumOf(s[1..], f)) == c * f(s[0]) + c * SumOf(s[1..], f);
    }
  }

  lemma {:induction false} SumLeq<T>(s: seq<T>, f: T -> real, g: T -> real)
    requires forall x :: x in s ==> f(x) <= g(x)
    ensures SumOf(s, f) <= SumOf(s, g)
    ensures SumOf(s, f) == SumOf(s, g) ==> forall x :: x in s ==> f(x) == g(x)
  {
    if s != [] {
      SumLeq(s[1..], f, g);
    }
  }

  lemma {:induction false} SumZeros<T>(s: seq<T>, f: T -> real)
    requires forall x :: x in s ==> f(x) == 0.0
    ensures SumOf(s, f) == 0.0
  {
    if s != [] {
      SumZeros(s[1..], f);
    }
  }

  /** A sum of non-negative terms is non-negative, zero only if every term is, and at least each term. */
  lemma {:induction false} SumNonNegative<T>(s: seq<T>, f: T -> real)
    requires forall x :: x in s ==> f(x) >= 0.0
    ensures SumOf(s, f) >= 0.0
    ensures SumOf(s, f) == 0.0 ==> forall x :: x in s ==> f(x) == 0.0
    ensures forall x :: x in s ==> f(x) <= SumOf(s, f)
  {
    if s != [] {
      SumNonNegative(s[1..], f);
    }
  }

  lemma {:induction false} SumOfAppend<T>(s: seq<T>, t: seq<T>, f: T -> real)
    ensures SumOf(s + t, f) == SumOf(s, f) + SumOf(t, f)
  {
    if s == [] {
      assert s + t == t;
    } else {
      assert (s + t)[1..] == s[1..] + t;
      SumOfAppend(s[1..], t, f);
    }
  }

  lemma SumOfSnoc<T>(s: seq<T>, i: nat, f: T -> real)
    requires i < |s|
    ensures SumOf(s[..i + 1], f) == SumOf(s[..i], f) + f(s[i])
  {
    assert s[..i + 1] == s[..i] + [s[i]];
    SumOfAppend(s[..i], [s[i]], f);
    assert SumOf([s[i]], f) == f(s[i]) + SumOf([], f);
  }

  /** Summing rows first or columns first gives the same total. */
  lemma {:induction false} SumSwap<T, U>(
    s: seq<T>, t: seq<U>, row: T -> (U -> real), col: U -> (T -> real), rows: T -> real, cols: U -> real)
    requires forall x, y :: x in s && y in t ==> row(x)(y) == col(y)(x)
    requires forall x :: x in s ==> rows(x) == SumOf(t, row(x))
    requires forall y :: y in t ==> cols(y) == SumOf(s, col(y))
    ensures SumOf(s, rows) == SumOf(t, cols)
  {
    if s == [] {
      SumZeros(t, cols);
    } else {
      var rest := (y: U) => SumOf(s[1..], col(y));
      SumSwap(s[1..], t, row, col, rows, rest);
      SumPlus(t, row(s[0]), rest, cols);
    }
  }
}
