/** Chunked search of a file for identity tokens, against a whole-file search.  Bytes are chars below 256. */
module TokenScan {
  import opened Prelude
  import opened Sorting

  type Bytes = string

  const MIN_TOKEN_BYTES: nat := 8

  datatype Binding = Binding(bytes: nat, sha256: string)

  datatype ScanError = BindingMismatch

  function LowerByte(c: char): char {
    if 'A' <= c <= 'Z' then c + (32 as char) else c
  }

  /** ASCII lower case, as bytes.lower. */
  function Lower(s: Bytes): (r: Bytes)
    ensures |r| == |s| && forall i :: 0 <= i < |s| ==> r[i] == LowerByte(s[i])
  {
    seq(|s|, i requires 0 <= i < |s| => LowerByte(s[i]))
  }

  lemma LowerAppend(s: Bytes, t: Bytes)
    ensures Lower(s + t) == Lower(s) + Lower(t)
    ensures Lower(Lower(s)) == Lower(s)
  {
  }

  predicate Occurs(t: Bytes, s: Bytes) {
    exists i :: 0 <= i <= |s| && OccursAt(t, s, i)
  }

  predicate OccursAt(t: Bytes, s: Bytes, i: int) {
    0 <= i <= |s| - |t| && s[i..i + |t|] == t
  }

  /** The last n bytes, or all of a shorter text: s[-n:]. */
  function Last(s: Bytes, n: nat): Bytes {
    if n < |s| then s[|s| - n..] else s
  }

  /** Tokens at least as long as the minimum, in order. */
  function Opaque(tokens: seq<Bytes>): (r: seq<Bytes>)
    ensures forall t :: t in r <==> t in tokens && |t| >= MIN_TOKEN_BYTES
  {
    if tokens == [] then []
    else (if |tokens[0]| >= MIN_TOKEN_BYTES then [tokens[0]] else []) + Opaque(tokens[1..])
  }

  function Longest(tokens: seq<Bytes>): (n: nat)
    ensures forall t :: t in tokens ==> |t| <= n
    ensures tokens != [] ==> exists t :: t in tokens && |t| == n
  {
    if tokens == [] then 0
    else
      var n := Longest(tokens[1..]);
      assert tokens[0] in tokens;
      assert forall t :: t in tokens[1..] ==> t in tokens;
      Max(|tokens[0]|, n)
  }

  function Concat(chunks: seq<Bytes>): Bytes {
    if chunks == [] then [] else Concat(chunks[..|chunks| - 1]) + chunks[|chunks| - 1]
  }

  // ----- windows

  lemma OccursInPrefix(t: Bytes, a: Bytes, b: Bytes)
    requires Occurs(t, a)
    ensures Occurs(t, a + b)
  {
    var i :| 0 <= i <= |a| && OccursAt(t, a, i);
    assert (a + b)[i..i + |t|] == a[i..i + |t|];
    assert OccursAt(t, a + b, i);
  }

  lemma OccursInSuffix(t: Bytes, a: Bytes, b: Bytes)
    requires Occurs(t, b)
    ensures Occurs(t, a + b)
  {
    var i :| 0 <= i <= |b| && OccursAt(t, b, i);
    assert (a + b)[|a| + i..|a| + i + |t|] == b[i..i + |t|];
    assert OccursAt(t, a + b, |a| + i);
  }

  /** A token of at most n+1 bytes that ends in the new chunk lies wholly in the last n old bytes and the chunk. */
  lemma OccursInWindow(t: Bytes, seen: Bytes, chunk: Bytes, n: nat)
    requires |t| <= n + 1
    ensures Occurs(t, seen + chunk) <==> Occurs(t, seen) || Occurs(t, Last(seen, n) + chunk)
  {
    var kept := Last(seen, n);
    var gone := seen[..|seen| - |kept|];
    assert seen == gone + kept;
    assert seen + chunk == gone + (kept + chunk);
    if Occurs(t, seen) {
      OccursInPrefix(t, seen, chunk);
    }
    if Occurs(t, kept + chunk) {
      OccursInSuffix(t, gone, kept + chunk);
    }
    if i :| 0 <= i <= |seen + chunk| && OccursAt(t, seen + chunk, i) {
      if i + |t| <= |seen| {
        assert seen[i..i + |t|] == (seen + chunk)[i..i + |t|];
        assert OccursAt(t, seen, i);
      } else {
        assert i >= |gone|;
        assert (kept + chunk)[i - |gone|..i - |gone| + |t|] == (seen + chunk)[i..i + |t|];
        assert OccursAt(t, kept + chunk, i - |gone|);
      }
    }
  }

  /** The window's last n bytes are the last n bytes of everything seen. */
  lemma LastOfWindow(seen: Bytes, chunk: Bytes, n: nat)
    ensures Last(Last(seen, n) + chunk, n) == Last(seen + chunk, n)
  {
  }

  /** A duplicate-free list of the tokens found in s. */
  ghost predicate Found(matched: seq<Bytes>, tokens: seq<Bytes>, s: Bytes) {
    Distinct(matched) && forall t :: t in matched <==> t in tokens && Occurs(t, s)
  }

  /** Adds to the matched tokens those occurring in the window. */
  method Match(matched: seq<Bytes>, tokens: seq<Bytes>, window: Bytes) returns (r: seq<Bytes>)
    requires Distinct(matched)
    ensures Distinct(r)
    ensures forall t :: t in r <==> t in matched || (t in tokens && Occurs(t, window))
  {
    r := matched;
    for i := 0 to |tokens|
      invariant Distinct(r)
      invariant forall t :: t in r <==> t in matched || (t in tokens[..i] && Occurs(t, window))
    {
      assert tokens[..i + 1] == tokens[..i] + [tokens[i]];
      var present := Contains(tokens[i], window);
      if present && tokens[i] !in r {
        r := r + [tokens[i]];
      }
    }
    assert tokens[..|tokens|] == tokens;
  }

  method Contains(t: Bytes, s: Bytes) returns (found: bool)
    ensures found <==> Occurs(t, s)
  {
    found := false;
    var i := 0;
    while i + |t| <= |s| && !found
      invariant found <==> exists j :: j < i && OccursAt(t, s, j)
      decreases |s| - i, !found
    {
      found := s[i..i + |t|] == t;
      assert found ==> OccursAt(t, s, i);
      i := i + 1;
    }
  }

  /**
   Whatever the reads were split into, the result is exactly the eligible tokens that occur in the
   lower-cased file, sorted; it is refused exactly when the file is not the bound artifact.
   */
  method ScanOpaqueIdentityTokens(chunks: seq<Bytes>, binding: Binding, tokens: seq<Bytes>, sha256: Bytes -> string)
    returns (r: Result<seq<Bytes>, ScanError>)
    ensures r.Err? <==> |Concat(chunks)| != binding.bytes || sha256(Concat(chunks)) != binding.sha256
    ensures r.Ok? ==> Distinct(r.value) && Ascending(r.value, TextLeq)
    ensures r.Ok? ==> forall t :: t in r.value <==>
              t in tokens && |t| >= MIN_TOKEN_BYTES && Occurs(t, Lower(Concat(chunks)))
  {
    hide Occurs, Last, Lower, TextLeq, Sort;
    var opaqueTokens := Opaque(tokens);
    if opaqueTokens == [] {
      var file := Concat(chunks);
      TextOrder();
      return if |file| == binding.bytes && sha256(file) == binding.sha256 then Ok([]) else Err(BindingMismatch);
    }
    var keep := Longest(opaqueTokens) - 1;
    var matched: seq<Bytes> := [];
    var overlap: Bytes := [];
    var seen: Bytes := [];
    NothingFound(opaqueTokens, keep);
    for i := 0 to |chunks|
      invariant seen == Concat(chunks[..i]) && |seen| <= binding.bytes
      invariant overlap == Last(Lower(seen), keep)
      invariant Found(matched, opaqueTokens, Lower(seen))
    {
      var chunk := chunks[i];
      ConcatSnoc(chunks, i);
      ghost var before := seen;
      seen := seen + chunk;
      if |seen| > binding.bytes {
        ConcatLonger(chunks, i + 1);
        return Err(BindingMismatch);
      }
      var window := Lower(overlap + chunk);
      Step(before, chunk, keep, opaqueTokens);
      matched := Match(matched, opaqueTokens, window);
      overlap := if keep > 0 then Last(window, keep) else [];
    }
    assert chunks[..|chunks|] == chunks;
    if |seen| != binding.bytes || sha256(seen) != binding.sha256 {
      return Err(BindingMismatch);
    }
    SortedTokens(matched);
    r := Ok(Sort(matched, TextLeq));
  }

  lemma NothingFound(tokens: seq<Bytes>, keep: nat)
    requires forall t :: t in tokens ==> |t| >= MIN_TOKEN_BYTES
    ensures Last(Lower([]), keep) == []
    ensures forall t :: t in tokens ==> !Occurs(t, Lower([]))
  {
  }

  lemma Step(seen: Bytes, chunk: Bytes, keep: nat, tokens: seq<Bytes>)
    requires forall t :: t in tokens ==> |t| <= keep + 1
    ensures var window := Lower(Last(Lower(seen), keep) + chunk);
            && Last(window, keep) == Last(Lower(seen + chunk), keep)
            && forall t :: t in tokens ==>
                 (Occurs(t, Lower(seen + chunk)) <==> Occurs(t, Lower(seen)) || Occurs(t, window))
  {
    LowerAppend(seen, chunk);
    var kept := Last(Lower(seen), keep);
    assert Lower(kept) == kept;
    LowerAppend(kept, chunk);
    LastOfWindow(Lower(seen), Lower(chunk), keep);
    hide Lower, Last, Occurs;
    forall t | t in tokens
      ensures Occurs(t, Lower(seen + chunk)) <==> Occurs(t, Lower(seen)) || Occurs(t, kept + Lower(chunk))
    {
      OccursInWindow(t, Lower(seen), Lower(chunk), keep);
    }
  }

  lemma ConcatSnoc(chunks: seq<Bytes>, i: nat)
    requires i < |chunks|
    ensures Concat(chunks[..i + 1]) == Concat(chunks[..i]) + chunks[i]
  {
    assert chunks[..i + 1][..i] == chunks[..i];
  }

  lemma {:induction false} ConcatLonger(chunks: seq<Bytes>, i: nat)
    requires i <= |chunks|
    ensures |Concat(chunks[..i])| <= |Concat(chunks)|
    decreases |chunks| - i
  {
    if i < |chunks| {
      ConcatSnoc(chunks, i);
      ConcatLonger(chunks, i + 1);
    } else {
      assert chunks[..i] == chunks;
    }
  }

  lemma SortedTokens(matched: seq<Bytes>)
    requires Distinct(matched)
    ensures Distinct(Sort(matched, TextLeq)) && Ascending(Sort(matched, TextLeq), TextLeq)
    ensures forall t :: t in Sort(matched, TextLeq) <==> t in matched
  {
    TextOrder();
    SortPermutes(matched, TextLeq);
    SortAscending(matched, TextLeq);
    DistinctCounts(matched);
    DistinctCounts(Sort(matched, TextLeq));
    assert forall t :: t in matched <==> t in multiset(matched);
    assert forall t :: t in Sort(matched, TextLeq) <==> t in multiset(Sort(matched, TextLeq));
  }

  /** The result does not depend on how the reads split the file. */
  lemma SplitsAgree(tokens: seq<Bytes>, p: seq<Bytes>, q: seq<Bytes>, s: Bytes)
    requires Distinct(p) && Distinct(q) && Ascending(p, TextLeq) && Ascending(q, TextLeq)
    requires forall t :: t in p <==> t in tokens && |t| >= MIN_TOKEN_BYTES && Occurs(t, s)
    requires forall t :: t in q <==> t in tokens && |t| >= MIN_TOKEN_BYTES && Occurs(t, s)
    ensures p == q
  {
    hide Occurs, TextLeq;
    TextOrder();
    DistinctCounts(p);
    DistinctCounts(q);
    forall t
      ensures multiset(p)[t] == multiset(q)[t]
    {
      assert (t in p <==> t in multiset(p)) && (t in q <==> t in multiset(q));
    }
    assert multiset(p) == multiset(q);
    AscendingUnique(p, q, TextLeq);
  }
}
