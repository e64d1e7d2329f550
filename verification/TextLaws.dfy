/** Small formats pinned: byte case, object framing, line breaks, normalized values. */
module TextLaws {
  import opened Prelude
  import opened Decimal
  import opened Sorting
  import opened OrderLaws
  import opened JsonText
  import opened CanonicalJson
  import B = BlobBatch
  import L = LineText
  import N = Normalization
  import S = SourceContents
  import T = TokenScan

  // ----- token scan

  const UPPER: string := "ABCDEFGHIJKLMNOPQRSTUVWXYZ"
  const LOWER: string := "abcdefghijklmnopqrstuvwxyz"

  lemma CapitalsAre()
    ensures |UPPER| == |LOWER| == 26
    ensures forall i :: 0 <= i < 26 ==> UPPER[i] as int == 65 + i
    ensures forall i :: 0 <= i < 26 ==> LOWER[i] as int == 97 + i
  {
  }

  /** Lower-casing replaces the 26 capital letters by their small ones and nothing else. */
  lemma LowerSpelled(c: char)
    ensures forall i :: 0 <= i < 26 && UPPER[i] == c ==> T.LowerByte(c) == LOWER[i]
    ensures c !in UPPER ==> T.LowerByte(c) == c
  {
    CapitalsAre();
    if 'A' <= c <= 'Z' {
      assert UPPER[c as int - 65] == c;
    }
  }

  /** Tokens of at least eight bytes are searched for, shorter ones are not. */
  lemma EightBytes(t: string)
    ensures T.Opaque([t]) == if |t| >= 8 then [t] else []
  {
    assert [t][1..] == [];
    assert T.Opaque([]) == [];
  }

  // ----- Git objects

  /** What a blob's object ID hashes. */
  function FramedBlob(blob: string): string {
    "blob " + Dec(|blob|) + "\0" + blob
  }

  lemma FrameParts(blob: string)
    ensures var n := 5 + |Dec(|blob|)|;
            && |FramedBlob(blob)| == n + 1 + |blob| && FramedBlob(blob)[n] == '\0'
            && FramedBlob(blob)[5..n] == Dec(|blob|) && FramedBlob(blob)[n + 1..] == blob
            && forall i :: 5 <= i < n ==> FramedBlob(blob)[i] != '\0'
  {
    var d := Dec(|blob|);
    var f := FramedBlob(blob);
    assert f == ("blob " + d) + ("\0" + blob);
    forall i | 5 <= i < 5 + |d|
      ensures f[i] == d[i - 5] && f[i] != '\0'
    {
      assert IsDigit(d[i - 5]);
    }
  }

  /** The frame determines the blob. */
  lemma FrameInjective(a: string, b: string)
    requires FramedBlob(a) == FramedBlob(b)
    ensures a == b
  {
    hide FramedBlob;
    FrameParts(a);
    FrameParts(b);
    var m, n := 5 + |Dec(|a|)|, 5 + |Dec(|b|)|;
    assert FramedBlob(b)[m] == '\0' && FramedBlob(a)[n] == '\0';
    assert m == n;
  }

  /** Blobs with one object ID are equal, or their frames are two texts with one hash. */
  lemma SameIdSameBlob(hash: B.ObjectHash, a: string, b: string, hexLength: nat)
    requires B.BlobObjectId(hash, a, hexLength) == B.BlobObjectId(hash, b, hexLength)
    ensures || a == b
            || (FramedBlob(a) != FramedBlob(b) && hash(FramedBlob(a), hexLength) == hash(FramedBlob(b), hexLength))
    ensures B.BlobObjectId(hash, "ab", hexLength) == hash("blob 2\0ab", hexLength)
  {
    assert Dec(2) == "2";
    assert "blob " + "2" + "\0" + "ab" == "blob 2\0ab";
    if FramedBlob(a) == FramedBlob(b) {
      FrameInjective(a, b);
    }
  }

  lemma HeadersSpelled()
    ensures B.Header("p", Dec(2)) == "p blob 2" && B.Header("q", Dec(0)) == "q blob 0"
  {
    assert Dec(2) == "2" && Dec(0) == "0";
    assert "p" + " blob " + "2" == "p blob 2" && "q" + " blob " + "0" == "q blob 0";
  }

  /** Two blobs, the second empty, as the size phase lists them. */
  lemma SizesSpelled()
    ensures B.SizesFrame(["p", "q"], [2, 0]) == "p blob 2\nq blob 0\n"
  {
    HeadersSpelled();
    hide B.Header, Dec;
    assert ["p", "q"][1..] == ["q"] && ["q"][1..] == [] && [2, 0][1..] == [0];
    assert B.SizesFrame(["q"], [0]) == "q blob 0" + "\n" + "";
    assert B.SizesFrame(["p", "q"], [2, 0]) == "p blob 2" + "\n" + B.SizesFrame(["q"], [0]);
  }

  /** The same blobs as the content phase frames them. */
  lemma FramesSpelled()
    ensures B.ContentFrame(["p", "q"], ["xy", ""]) == "p blob 2\nxy\nq blob 0\n\n"
  {
    HeadersSpelled();
    hide B.Header, Dec;
    assert ["p", "q"][1..] == ["q"] && ["q"][1..] == [] && ["xy", ""][1..] == [""];
    assert B.ContentFrame(["q"], [""]) == "q blob 0" + "\n" + ("" + "\n" + "");
    assert B.ContentFrame(["p", "q"], ["xy", ""]) ==
           "p blob 2" + "\n" + ("xy" + "\n" + B.ContentFrame(["q"], [""]));
  }

  /** A header may announce sixteen mebibytes and no more. */
  lemma SizeLimit(id: string, n: nat)
    requires ' ' !in id
    ensures B.BatchBlobSize(B.Header(id, Dec(n)), id).Some? <==> n <= 16777216
  {
    hide B.BatchBlobSize, B.Header, Dec;
    B.HeaderExactly(B.Header(id, Dec(n)), id, n);
    if B.BatchBlobSize(B.Header(id, Dec(n)), id).Some? {
      var m := B.BatchBlobSize(B.Header(id, Dec(n)), id).value;
      B.HeaderExactly(B.Header(id, Dec(n)), id, m);
      SameHeader(id, Dec(n), Dec(m));
      DecInjective(n, m);
    }
  }

  lemma SameHeader(id: string, x: string, y: string)
    requires B.Header(id, x) == B.Header(id, y)
    ensures x == y
  {
    assert B.Header(id, x)[|id| + 6..] == x && B.Header(id, y)[|id| + 6..] == y;
  }

  /** A request is a list of different full object IDs, none repeated, that with its line ends takes at most 4 MiB. */
  lemma RequestSpelled(ids: seq<string>)
    ensures B.ValidRequest(ids) <==>
            && ids != [] && (forall i, j :: 0 <= i < j < |ids| ==> ids[i] != ids[j])
            && (forall i :: 0 <= i < |ids| ==> FullId(ids[i]))
            && Sum(B.Sizes(ids)) + |ids| <= 4194304
  {
    hide B.ObjectIdText, FullId;
    RequestIsSum(ids);
    forall i | 0 <= i < |ids|
      ensures B.ObjectIdText(ids[i]) <==> FullId(ids[i])
    {
      FullIdExactly(ids[i]);
    }
  }

  predicate FullId(id: string) {
    |id| in {40, 64} && forall c :: c in id ==> c in "0123456789abcdef"
  }

  lemma FullIdExactly(id: string)
    ensures B.ObjectIdText(id) <==> FullId(id)
  {
    var digits := "0123456789abcdef";
    forall c: char
      ensures c in digits <==> '0' <= c <= '9' || 'a' <= c <= 'f'
    {
      if '0' <= c <= '9' {
        assert digits[c as int - 48] == c;
      }
      if 'a' <= c <= 'f' {
        assert digits[c as int - 87] == c;
      }
    }
    if FullId(id) {
      assert forall i :: 0 <= i < |id| ==> id[i] in id;
    }
  }

  lemma {:induction false} RequestIsSum(ids: seq<string>)
    ensures B.RequestLength(ids) == Sum(B.Sizes(ids)) + |ids|
  {
    if ids != [] {
      RequestIsSum(ids[1..]);
      assert B.Sizes(ids)[1..] == B.Sizes(ids[1..]);
    }
  }

  /** Git's own output for these blobs is accepted exactly within 4 MiB of headers, 16 MiB a blob and 64 MiB in all. */
  lemma BatchLimits(hash: B.ObjectHash, ids: seq<string>, blobs: seq<string>)
    requires B.ValidRequest(ids) && |ids| == |blobs|
    ensures B.Batch(hash, ids, B.SizesFrame(ids, B.Sizes(blobs)), B.ContentFrame(ids, blobs)) == Some(blobs) <==>
            && |B.SizesFrame(ids, B.Sizes(blobs))| <= 4194304
            && (forall i :: 0 <= i < |blobs| ==> |blobs[i]| <= 16777216)
            && B.Total(B.Sizes(blobs)) <= 67108864
            && forall i :: 0 <= i < |ids| ==> B.BlobObjectId(hash, blobs[i], |ids[i]|) == ids[i]
  {
    hide B.Batch, B.ValidRequest, B.SizesFrame, B.ContentFrame, B.Total, B.BlobObjectId;
    B.BatchExactly(hash, ids, B.SizesFrame(ids, B.Sizes(blobs)), B.ContentFrame(ids, blobs), blobs);
  }

  /** The acquisition reader accepts it exactly within 16 MiB a blob and 32 MiB in all. */
  lemma SourceLimits(int_: S.IntReader, ids: seq<string>, blobs: seq<string>)
    requires S.ReadsDecimals(int_) && |ids| == |blobs| && B.ObjectIds(ids)
    ensures S.Sources(int_, ids, B.SizesFrame(ids, B.Sizes(blobs)), B.ContentFrame(ids, blobs)) == Some(blobs) <==>
            && (forall i :: 0 <= i < |blobs| ==> |blobs[i]| <= 16777216)
            && B.Total(B.Sizes(blobs)) <= 33554432
  {
    hide S.ReadsDecimals, S.Sources, S.LineAnnounces, S.LooselyFramed, B.ObjectIds, B.SizesFrame, B.ContentFrame,
         B.Total;
    S.SourcesExactly(int_, ids, B.SizesFrame(ids, B.Sizes(blobs)), B.ContentFrame(ids, blobs), blobs);
    if B.Bounded(B.Sizes(blobs)) && B.Total(B.Sizes(blobs)) <= 33554432 {
      S.SourcesComplete(int_, ids, blobs);
    }
    assert B.Bounded(B.Sizes(blobs)) <==> forall i :: 0 <= i < |blobs| ==> |blobs[i]| <= 16777216;
  }

  // ----- lines

  predicate Unbroken(s: string) {
    '\n' !in s && '\r' !in s
  }

  /** Split lines hold no line break, and unbroken lines ended by LF are split back into themselves. */
  lemma {:induction false} LinesUnbroken(s: string)
    ensures forall l :: l in S.SplitLines(s) ==> Unbroken(l)
    decreases |s|
  {
    if s != "" {
      var n := S.LineEnd(s);
      LineEndFirst(s);
      assert Unbroken(s[..n]);
      if n < |s| {
        LinesUnbroken(s[n + 1..]);
        if n + 1 < |s| {
          LinesUnbroken(s[n + 2..]);
        }
      }
    }
  }

  lemma {:induction false} LineEndFirst(s: string)
    ensures forall i :: 0 <= i < S.LineEnd(s) ==> s[i] != '\n' && s[i] != '\r'
  {
    if s != "" && s[0] != '\n' && s[0] != '\r' {
      LineEndFirst(s[1..]);
    }
  }

  /** LF, CR and CRLF each end one line. */
  lemma BreaksSpelled(a: string, rest: string)
    requires Unbroken(a)
    ensures S.SplitLines(a + "\n" + rest) == [a] + S.SplitLines(rest)
    ensures S.SplitLines(a + "\r\n" + rest) == [a] + S.SplitLines(rest)
    ensures (rest == "" || rest[0] != '\n') ==> S.SplitLines(a + "\r" + rest) == [a] + S.SplitLines(rest)
    ensures a != "" ==> S.SplitLines(a) == [a]
  {
    hide *;
    BreakAt(a, "\n", rest);
    BreakAt(a, "\r\n", rest);
    if rest == "" || rest[0] != '\n' {
      BreakAt(a, "\r", rest);
    }
    if a != "" {
      NoBreak(a);
    }
  }

  lemma BreakAt(a: string, br: string, rest: string)
    requires Unbroken(a) && (br == "\n" || br == "\r\n" || (br == "\r" && (rest == "" || rest[0] != '\n')))
    ensures S.SplitLines(a + br + rest) == [a] + S.SplitLines(rest)
  {
    hide *;
    var s := a + br + rest;
    assert s == a + (br + rest);
    EndsAt(a, br + rest);
    assert s[..|a|] == a && s[|a| + |br|..] == rest;
    assert s[|a|] == br[0];
    assert |br| == 2 ==> s[|a| + 1] == '\n';
    assert br == "\r" && rest != "" ==> s[|a| + 1] == rest[0];
    SplitAt(s, |a|, |br|);
  }

  lemma SplitAt(s: string, n: nat, k: nat)
    requires n < |s| && S.LineEnd(s) == n && 1 <= k && n + k <= |s|
    requires if s[n] == '\r' && n + 1 < |s| && s[n + 1] == '\n' then k == 2 else k == 1
    ensures S.SplitLines(s) == [s[..n]] + S.SplitLines(s[n + k..])
  {
    hide S.LineEnd;
  }

  lemma NoBreak(a: string)
    requires a != "" && Unbroken(a)
    ensures S.SplitLines(a) == [a]
  {
    assert a + "" == a;
    EndsAt(a, "");
  }

  lemma {:induction false} EndsAt(a: string, rest: string)
    requires Unbroken(a) && (rest == "" || rest[0] == '\n' || rest[0] == '\r')
    ensures S.LineEnd(a + rest) == |a|
  {
    if a == "" {
      assert a + rest == rest;
    } else {
      assert (a + rest)[1..] == a[1..] + rest;
      EndsAt(a[1..], rest);
    }
  }

  /** Exact LF framing means no CR anywhere and a final LF unless empty. */
  lemma FramedSpelled(line: string, rest: string)
    ensures L.Framed("") && !L.Framed(line + "\r" + rest) && (L.Framed(line + "\n") <==> '\r' !in line)
    ensures line != "" && line[|line| - 1] != '\n' ==> !L.Framed(line)
  {
    assert (line + "\r" + rest)[|line|] == '\r';
    assert (line + "\n")[|line + "\n"| - 1] == '\n';
  }

  // ----- normalization

  /** Times, dates, paths and decimals are written as their text, members and models as what they hold. */
  lemma ScalarsSpelled(s: Str, v: N.Value)
    ensures N.CanonicalText(N.Datetime(true, s)) == N.CanonicalText(N.Text(s))
    ensures N.CanonicalText(N.Date(s)) == N.CanonicalText(N.Text(s))
    ensures N.CanonicalText(N.FilePath(s)) == N.CanonicalText(N.Text(s))
    ensures N.CanonicalText(N.Decimal(true, s)) == N.CanonicalText(N.Text(s)) == Ok(Quote(s))
    ensures N.CanonicalText(N.EnumMember(v)) == N.CanonicalText(v) == N.CanonicalText(N.Model(v))
    ensures N.CanonicalText(N.None_) == Ok("null") && N.CanonicalText(N.Bool(true)) == Ok("true")
    ensures N.CanonicalText(N.Bool(false)) == Ok("false")
  {
  }

  /** A mapping keeps its keys and a sequence its items; empty ones are bare brackets. */
  lemma ContainersSpelled(k: Str, s: Str)
    ensures N.CanonicalText(N.Mapping([N.Item(Some(k), N.Text(s))])) == Ok("{" + Quote(k) + ":" + Quote(s) + "}")
    ensures N.CanonicalText(N.Sequence([N.Text(s)])) == Ok("[" + Quote(s) + "]")
    ensures N.CanonicalText(N.Mapping([])) == Ok("{}") && N.CanonicalText(N.Sequence([])) == Ok("[]")
  {
    hide Quote;
    MappingWritten(Member(k, JStr(s)), N.Item(Some(k), N.Text(s)));
    SequenceWritten(JStr(s), N.Text(s));
  }

  lemma MappingWritten(m: Member, x: N.Item)
    requires x.key == Some(m.key) && N.Normalize(x.value) == Ok(m.value) && Canon(m.value) == m.value
    ensures N.CanonicalText(N.Mapping([x])) == Ok("{" + Quote(m.key) + ":" + Emit(m.value) + "}")
  {
    hide N.Normalize, Canon, Emit, Quote;
    MappingNormal(m, x);
    MappingCanon(m);
    OneMember(m);
  }

  lemma MappingNormal(m: Member, x: N.Item)
    requires x.key == Some(m.key) && N.Normalize(x.value) == Ok(m.value)
    ensures N.Normalize(N.Mapping([x])) == Ok(JObj([m]))
  {
    assert N.NormalizeItems([x]) == Ok([m]) by {
      hide N.Normalize;
      assert [x][1..] == [] && N.NormalizeItems([]) == Ok([]) && [m] + [] == [m];
    }
    hide N.NormalizeItems;
  }

  lemma MappingCanon(m: Member)
    requires Canon(m.value) == m.value
    ensures Canon(JObj([m])) == JObj([m])
  {
    assert CanonMembers([m]) == [m];
    hide CanonMembers;
    SortOne(m, KeyLeq);
  }

  lemma SortOne<T>(x: T, leq: (T, T) -> bool)
    ensures Sort([x], leq) == [x]
  {
    assert [x][1..] == [] && Sort([], leq) == [];
  }

  lemma OneMember(m: Member)
    ensures Emit(JObj([m])) == "{" + Quote(m.key) + ":" + Emit(m.value) + "}"
  {
    assert EmitMembers([m]) == Quote(m.key) + ":" + Emit(m.value) + "}";
    hide EmitMembers, Quote;
  }

  lemma OneItem(v: Json)
    ensures Emit(JArr([v])) == "[" + Emit(v) + "]"
  {
    assert EmitItems([v]) == Emit(v) + "]";
  }

  lemma SequenceWritten(v: Json, x: N.Value)
    requires N.Normalize(x) == Ok(v) && Canon(v) == v
    ensures N.CanonicalText(N.Sequence([x])) == Ok("[" + Emit(v) + "]")
  {
    hide N.Normalize, Canon, Emit;
    SequenceNormal(v, x);
    SequenceCanon(v);
    OneItem(v);
  }

  lemma SequenceNormal(v: Json, x: N.Value)
    requires N.Normalize(x) == Ok(v)
    ensures N.Normalize(N.Sequence([x])) == Ok(JArr([v]))
  {
    assert N.NormalizeAll([x]) == Ok([v]) by {
      hide N.Normalize;
      assert [x][1..] == [] && N.NormalizeAll([]) == Ok([]) && [v] + [] == [v];
    }
    hide N.NormalizeAll;
  }

  lemma SequenceCanon(v: Json)
    requires Canon(v) == v
    ensures Canon(JArr([v])) == JArr([v])
  {
    assert CanonAll([v]) == [v];
    hide CanonAll;
  }

  /** The value holds something the normalizer refuses, at some depth. */
  predicate Refusable(v: N.Value) {
    match v
    case Datetime(aware, _) => !aware
    case Number(finite, _) => !finite
    case Decimal(finite, _) => !finite
    case Bytes => true
    case Unsupported => true
    case EnumMember(of) => Refusable(of)
    case Model(dump) => Refusable(dump)
    case Mapping(items) => exists x | x in items :: x.key.None? || Refusable(x.value)
    case SetOf(elements) => exists x | x in elements :: Refusable(x)
    case Sequence(elements) => exists x | x in elements :: Refusable(x)
    case _ => false
  }

  /** Normalization refuses exactly naive times, non-finite numbers, raw bytes, foreign types and other keys. */
  lemma {:induction false} RefusedExactly(v: N.Value)
    ensures N.Normalize(v).Err? <==> Refusable(v)
    decreases v
  {
    match v
    case EnumMember(of) => RefusedExactly(of);
    case Model(dump) => RefusedExactly(dump);
    case Mapping(items) =>
      N.NormalizeItemsElementwise(items);
      forall x | x in items
        ensures N.Normalize(x.value).Err? <==> Refusable(x.value)
      {
        RefusedExactly(x.value);
      }
    case SetOf(elements) =>
      N.NormalizeAllElementwise(elements);
      forall x | x in elements
        ensures N.Normalize(x).Err? <==> Refusable(x)
      {
        RefusedExactly(x);
      }
    case Sequence(elements) =>
      N.NormalizeAllElementwise(elements);
      forall x | x in elements
        ensures N.Normalize(x).Err? <==> Refusable(x)
      {
        RefusedExactly(x);
      }
    case _ =>
  }

  /** A set is written as the list of its elements in ascending order of their own canonical text. */
  lemma SetsSpelled(elements: seq<N.Value>)
    requires N.Normalize(N.SetOf(elements)).Ok?
    ensures var written := N.Normalize(N.SetOf(elements)).value;
            && written.JArr? && N.Normalize(N.Sequence(elements)).Ok?
            && multiset(written.items) == multiset(N.Normalize(N.Sequence(elements)).value.items)
            && forall i, j :: 0 <= i < j < |written.items| ==>
                 TextPrecedes(Dumps(written.items[i]), Dumps(written.items[j]))
  {
    hide Dumps, TextPrecedes, TextLeq;
    N.NormalizeAllElementwise(elements);
    var items := N.NormalizeAll(elements).value;
    SetAscends(elements, items);
  }

  lemma SetAscends(elements: seq<N.Value>, items: seq<Json>)
    requires N.NormalizeAll(elements) == Ok(items)
    ensures var written := N.Normalize(N.SetOf(elements)).value;
            && written.JArr? && multiset(written.items) == multiset(items)
            && forall i, j :: 0 <= i < j < |written.items| ==>
                 TextPrecedes(Dumps(written.items[i]), Dumps(written.items[j]))
  {
    DumpsOrder();
    SortAscending(items, N.DumpsLeq);
    SortPermutes(items, N.DumpsLeq);
    var written := N.Normalize(N.SetOf(elements)).value;
    forall i, j | 0 <= i < j < |written.items|
      ensures TextPrecedes(Dumps(written.items[i]), Dumps(written.items[j]))
    {
      assert N.DumpsLeq(written.items[i], written.items[j]);
      TextLeqExactly(Dumps(written.items[i]), Dumps(written.items[j]));
    }
  }

  lemma DumpsOrder()
    ensures TotalPreorder(N.DumpsLeq)
  {
    TextOrder();
  }
}
