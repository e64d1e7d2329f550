/** Stable insertion sort and the uniqueness of sorted permutations. */
module Sorting {

  ghost predicate TotalPreorder<T(!new)>(leq: (T, T) -> bool) {
    && (forall a, b :: leq(a, b) || leq(b, a))
    && (forall a, b, c :: leq(a, b) && leq(b, c) ==> leq(a, c))
  }

  ghost predicate Ascending<T>(s: seq<T>, leq: (T, T) -> bool) {
    forall i, j :: 0 <= i < j < |s| ==> leq(s[i], s[j])
  }

  function Insert<T>(x: T, s: seq<T>, leq: (T, T) -> bool): seq<T> {
    if s == [] || leq(x, s[0]) then [x] + s else [s[0]] + Insert(x, s[1..], leq)
  }

  function Sort<T>(s: seq<T>, leq: (T, T) -> bool): seq<T> {
    if s == [] then [] else Insert(s[0], Sort(s[1..], leq), leq)
  }

  lemma {:induction false} InsertPermutes<T>(x: T, s: seq<T>, leq: (T, T) -> bool)
    ensures multiset(Insert(x, s, leq)) == multiset(s) + multiset{x}
  {
    if !(s == [] || leq(x, s[0])) {
      InsertPermutes(x, s[1..], leq);
      assert s == [s[0]] + s[1..];
    }
  }

  lemma {:induction false} SortPermutes<T>(s: seq<T>, leq: (T, T) -> bool)
    ensures multiset(Sort(s, leq)) == multiset(s)
    ensures |Sort(s, leq)| == |s|
  {
    if s != [] {
      SortPermutes(s[1..], leq);
      InsertPermutes(s[0], Sort(s[1..], leq), leq);
      assert s == [s[0]] + s[1..];
    }
    assert |multiset(Sort(s, leq))| == |multiset(s)|;
  }

  lemma {:induction false} InsertAscending<T(!new)>(x: T, s: seq<T>, leq: (T, T) -> bool)
    requires TotalPreorder(leq) && Ascending(s, leq)
    ensures Ascending(Insert(x, s, leq), leq)
  {
    if s == [] || leq(x, s[0]) {
    } else {
      InsertAscending(x, s[1..], leq);
      InsertPermutes(x, s[1..], leq);
      var tail := Insert(x, s[1..], leq);
      forall j | 0 <= j < |tail|
        ensures leq(s[0], tail[j])
      {
        assert tail[j] in multiset(tail);
        assert tail[j] == x || tail[j] in s[1..];
      }
    }
  }

  lemma {:induction false} SortAscending<T(!new)>(s: seq<T>, leq: (T, T) -> bool)
    requires TotalPreorder(leq)
    ensures Ascending(Sort(s, leq), leq)
  {
    if s != [] {
      SortAscending(s[1..], leq);
      InsertAscending(s[0], Sort(s[1..], leq), leq);
    }
  }

  function Without<T>(s: seq<T>, i: nat): seq<T>
    requires i < |s|
  {
    s[..i] + s[i + 1..]
  }

  lemma WithoutCounts<T>(s: seq<T>, i: nat)
    requires i < |s|
    ensures multiset(s) == multiset(Without(s, i)) + multiset{s[i]}
  {
    assert s == s[..i] + ([s[i]] + s[i + 1..]);
  }

  lemma WithoutSame<T>(a: seq<T>, i: nat, b: seq<T>, j: nat)
    requires i < |a| && j < |b| && a[i] == b[j]
    requires multiset(a) == multiset(b)
    ensures multiset(Without(a, i)) == multiset(Without(b, j))
  {
    WithoutCounts(a, i);
    WithoutCounts(b, j);
    assert multiset(Without(a, i)) == multiset(a) - multiset{a[i]};
    assert multiset(Without(b, j)) == multiset(b) - multiset{a[i]};
  }

  lemma LeastFirst<T>(a: seq<T>, b: seq<T>, leq: (T, T) -> bool)
    requires Ascending(a, leq) && Ascending(b, leq)
    requires multiset(a) == multiset(b) && a != []
    requires forall x, y :: x in a && y in a && leq(x, y) && leq(y, x) ==> x == y
    ensures b != [] && a[0] == b[0]
  {
    assert |a| == |multiset(a)| == |multiset(b)| == |b|;
    assert a[0] in multiset(b) && b[0] in multiset(a);
    assert a[0] in b && b[0] in a;
  }

  lemma {:induction false} AscendingUnique<T>(a: seq<T>, b: seq<T>, leq: (T, T) -> bool)
    requires Ascending(a, leq) && Ascending(b, leq)
    requires multiset(a) == multiset(b)
    requires forall x, y :: x in a && y in a && leq(x, y) && leq(y, x) ==> x == y
    ensures a == b
  {
    hide *;
    if a == [] {
      assert |multiset(b)| == 0;
    } else {
      LeastFirst(a, b, leq);
      TailCounts(a, b);
      AscendingTail(a, leq);
      AscendingTail(b, leq);
      AscendingUnique(a[1..], b[1..], leq);
      assert a == [a[0]] + a[1..] && b == [b[0]] + b[1..];
    }
  }

  lemma TailCounts<T>(a: seq<T>, b: seq<T>)
    requires a != [] && b != [] && a[0] == b[0] && multiset(a) == multiset(b)
    ensures multiset(a[1..]) == multiset(b[1..])
  {
    WithoutSame(a, 0, b, 0);
    assert Without(a, 0) == a[1..] && Without(b, 0) == b[1..];
  }

  lemma AscendingTail<T>(a: seq<T>, leq: (T, T) -> bool)
    requires a != [] && Ascending(a, leq)
    ensures Ascending(a[1..], leq) && forall x :: x in a[1..] ==> x in a
  {
  }

  /** Two permutations of the same elements sort to the same sequence. */
  lemma SortOfPermutation<T(!new)>(a: seq<T>, b: seq<T>, leq: (T, T) -> bool)
    requires TotalPreorder(leq)
    requires multiset(a) == multiset(b)
    requires forall x, y :: x in a && y in a && leq(x, y) && leq(y, x) ==> x == y
    ensures Sort(a, leq) == Sort(b, leq)
  {
    SortPermutes(a, leq);
    SortPermutes(b, leq);
    SortAscending(a, leq);
    SortAscending(b, leq);
    forall x | x in Sort(a, leq)
      ensures x in a
    {
      assert x in multiset(Sort(a, leq));
    }
    AscendingUnique(Sort(a, leq), Sort(b, leq), leq);
  }

  // ----- images of permutations

  function Image<T, U>(s: seq<T>, f: T -> U): (r: seq<U>)
    ensures |r| == |s|
    ensures forall i :: 0 <= i < |s| ==> r[i] == f(s[i])
  {
    seq(|s|, i requires 0 <= i < |s| => f(s[i]))
  }

  lemma ImageWithout<T, U>(s: seq<T>, i: nat, f: T -> U)
    requires i < |s|
    ensures Image(Without(s, i), f) == Without(Image(s, f), i)
    ensures multiset(Image(s, f)) == multiset(Image(Without(s, i), f)) + multiset{f(s[i])}
  {
    WithoutCounts(Image(s, f), i);
  }

  lemma {:induction false} ImageOfPermutation<T, U>(a: seq<T>, b: seq<T>, f: T -> U)
    requires multiset(a) == multiset(b)
    ensures multiset(Image(a, f)) == multiset(Image(b, f))
  {
    assert |a| == |multiset(a)| == |multiset(b)| == |b|;
    if a == [] {
      assert Image(a, f) == Image(b, f);
    } else {
      assert a[0] in multiset(b);
      var i :| 0 <= i < |b| && b[i] == a[0];
      WithoutSame(a, 0, b, i);
      ImageOfPermutation(Without(a, 0), Without(b, i), f);
      ImageWithout(a, 0, f);
      ImageWithout(b, i, f);
    }
  }

  lemma {:induction false} InsertImage<T(!new), U>(
    x: T, s: seq<T>, f: T -> U, leq: (T, T) -> bool, leqU: (U, U) -> bool)
    requires forall a, b :: leq(a, b) <==> leqU(f(a), f(b))
    ensures Image(Insert(x, s, leq), f) == Insert(f(x), Image(s, f), leqU)
  {
    if s == [] || leq(x, s[0]) {
      assert Image([x] + s, f) == [f(x)] + Image(s, f);
    } else {
      InsertImage(x, s[1..], f, leq, leqU);
      assert Image(s, f)[1..] == Image(s[1..], f);
      assert Image([s[0]] + Insert(x, s[1..], leq), f) == [f(s[0])] + Image(Insert(x, s[1..], leq), f);
    }
  }

  /** Sorting by a key commutes with a map that keeps the key. */
  lemma {:induction false} SortImage<T(!new), U>(
    s: seq<T>, f: T -> U, leq: (T, T) -> bool, leqU: (U, U) -> bool)
    requires forall a, b :: leq(a, b) <==> leqU(f(a), f(b))
    ensures Image(Sort(s, leq), f) == Sort(Image(s, f), leqU)
  {
    if s == [] {
      assert Image(s, f) == [];
    } else {
      SortImage(s[1..], f, leq, leqU);
      InsertImage(s[0], Sort(s[1..], leq), f, leq, leqU);
      assert Image(s, f)[1..] == Image(s[1..], f);
    }
  }

  lemma DistinctCons<T>(s: seq<T>)
    requires s != []
    ensures (forall i, j :: 0 <= i < j < |s| ==> s[i] != s[j]) <==>
            s[0] !in s[1..] && forall i, j :: 0 <= i < j < |s[1..]| ==> s[1..][i] != s[1..][j]
  {
    var t := s[1..];
    if forall i, j :: 0 <= i < j < |s| ==> s[i] != s[j] {
      assert forall i, j :: 0 <= i < j < |t| ==> t[i] == s[i + 1] && t[j] == s[j + 1];
    }
    if s[0] !in t && forall i, j :: 0 <= i < j < |t| ==> t[i] != t[j] {
      forall i, j | 0 <= i < j < |s|
        ensures s[i] != s[j]
      {
        assert s[j] == t[j - 1];
        if i > 0 {
          assert s[i] == t[i - 1];
        }
      }
    }
  }

  lemma CountsCons<T>(s: seq<T>)
    requires s != []
    ensures (forall x :: multiset(s)[x] <= 1) <==> s[0] !in s[1..] && forall x :: multiset(s[1..])[x] <= 1
  {
    var t := s[1..];
    assert s == [s[0]] + t;
    assert forall x :: multiset(s)[x] == multiset(t)[x] + (if x == s[0] then 1 else 0);
    assert s[0] in t <==> multiset(t)[s[0]] >= 1;
    if forall x :: multiset(s)[x] <= 1 {
      assert multiset(s)[s[0]] <= 1;
      assert forall x :: multiset(t)[x] <= multiset(s)[x];
    }
  }

  /** Elements are pairwise different exactly when each occurs at most once. */
  lemma {:induction false} DistinctCounts<T>(s: seq<T>)
    ensures (forall i, j :: 0 <= i < j < |s| ==> s[i] != s[j]) <==> (forall x :: multiset(s)[x] <= 1)
  {
    if s != [] {
      DistinctCounts(s[1..]);
      DistinctCons(s);
      CountsCons(s);
    }
  }

  // ----- lexicographic order on sequences of numbers, as Python compares str and bytes

  predicate LexLeq(a: seq<int>, b: seq<int>) {
    a == [] || (b != [] && (a[0] < b[0] || (a[0] == b[0] && LexLeq(a[1..], b[1..]))))
  }

  lemma {:induction false} LexTotal(a: seq<int>, b: seq<int>)
    ensures LexLeq(a, b) || LexLeq(b, a)
    ensures LexLeq(a, b) && LexLeq(b, a) ==> a == b
  {
    if a != [] && b != [] {
      LexTotal(a[1..], b[1..]);
      assert a == [a[0]] + a[1..] && b == [b[0]] + b[1..];
    }
  }

  lemma {:induction false} LexTransitive(a: seq<int>, b: seq<int>, c: seq<int>)
    requires LexLeq(a, b) && LexLeq(b, c)
    ensures LexLeq(a, c)
  {
    if a != [] && a[0] == b[0] == c[0] {
      LexTransitive(a[1..], b[1..], c[1..]);
    }
  }

  function Codes(s: string): (r: seq<int>)
    ensures |r| == |s|
  {
    seq(|s|, i requires 0 <= i < |s| => s[i] as int)
  }

  lemma CodesInjective(a: string, b: string)
    requires Codes(a) == Codes(b)
    ensures a == b
  {
    forall i | 0 <= i < |a|
      ensures a[i] == b[i]
    {
      assert Codes(a)[i] == a[i] as int && Codes(b)[i] == b[i] as int;
    }
  }

  predicate TextLeq(a: string, b: string) {
    LexLeq(Codes(a), Codes(b))
  }

  lemma TextOrder()
    ensures TotalPreorder(TextLeq)
    ensures forall a, b :: TextLeq(a, b) && TextLeq(b, a) ==> a == b
  {
    forall a, b
      ensures TextLeq(a, b) || TextLeq(b, a)
      ensures TextLeq(a, b) && TextLeq(b, a) ==> a == b
    {
      LexTotal(Codes(a), Codes(b));
      if TextLeq(a, b) && TextLeq(b, a) {
        assert Codes(a) == Codes(b);
        CodesInjective(a, b);
      }
    }
    forall a, b, c | TextLeq(a, b) && TextLeq(b, c)
      ensures TextLeq(a, c)
    {
      LexTransitive(Codes(a), Codes(b), Codes(c));
    }
  }
}
