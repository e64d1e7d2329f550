/** What sorted means: the order on text, and the written order of object members. */
module OrderLaws {
  import opened Sorting
  import opened Decimal
  import opened JsonText
  import opened CanonicalJson
  import opened EmittedText

  /** a and b agree before place i, and a is smaller there. */
  predicate DiffersAt(a: seq<int>, b: seq<int>, i: int) {
    0 <= i < |a| && i < |b| && a[..i] == b[..i] && a[i] < b[i]
  }

  /** a is a prefix of b, or smaller at the first difference. */
  predicate Precedes(a: seq<int>, b: seq<int>) {
    a <= b || exists i :: 0 <= i < |a| && DiffersAt(a, b, i)
  }

  lemma PrecedesTail(a: seq<int>, b: seq<int>)
    requires a != [] && b != [] && a[0] == b[0]
    ensures Precedes(a, b) <==> Precedes(a[1..], b[1..])
  {
    var c, d := a[1..], b[1..];
    assert a == [a[0]] + c && b == [b[0]] + d;
    if i :| 0 <= i < |a| && DiffersAt(a, b, i) {
      assert c[..i - 1] == a[..i][1..] && d[..i - 1] == b[..i][1..];
      assert DiffersAt(c, d, i - 1);
    }
    if i :| 0 <= i < |c| && DiffersAt(c, d, i) {
      assert a[..i + 1] == [a[0]] + c[..i] && b[..i + 1] == [b[0]] + d[..i];
      assert DiffersAt(a, b, i + 1);
    }
  }

  lemma PrecedesHead(a: seq<int>, b: seq<int>)
    requires a != [] && b != [] && a[0] != b[0]
    ensures Precedes(a, b) <==> a[0] < b[0]
  {
    if a[0] < b[0] {
      assert a[..0] == b[..0];
      assert DiffersAt(a, b, 0);
    }
    if i :| 0 <= i < |a| && DiffersAt(a, b, i) {
      DiffersLater(a, b, i);
    }
  }

  lemma DiffersLater(a: seq<int>, b: seq<int>, i: int)
    requires DiffersAt(a, b, i)
    ensures i == 0 || a[0] == b[0]
  {
    if i > 0 {
      assert a[..i][0] == b[..i][0];
    }
  }

  /** The lexicographic order is exactly: prefix, or smaller at the first difference. */
  lemma {:induction false} LexLeqExactly(a: seq<int>, b: seq<int>)
    ensures LexLeq(a, b) <==> Precedes(a, b)
  {
    if a != [] && b != [] {
      if a[0] == b[0] {
        LexLeqExactly(a[1..], b[1..]);
        PrecedesTail(a, b);
      } else {
        PrecedesHead(a, b);
      }
    }
  }

  /** Text a comes no later than text b in code point order. */
  predicate TextPrecedes(a: string, b: string) {
    a <= b || exists i :: 0 <= i < |a| && i < |b| && a[..i] == b[..i] && a[i] < b[i]
  }

  lemma TextLeqExactly(a: string, b: string)
    ensures TextLeq(a, b) <==> TextPrecedes(a, b)
  {
    var c, d := Codes(a), Codes(b);
    LexLeqExactly(c, d);
    forall i | 0 <= i <= |a| && i <= |b|
      ensures c[..i] == d[..i] <==> a[..i] == b[..i]
    {
      CodesPrefix(a, i);
      CodesPrefix(b, i);
      if c[..i] == d[..i] {
        CodesInjective(a[..i], b[..i]);
      }
    }
    CodesAt(a);
    CodesAt(b);
    assert a <= b <==> |a| <= |b| && a[..|a|] == b[..|a|];
    assert c <= d <==> |c| <= |d| && c[..|c|] == d[..|c|];
    if i :| 0 <= i < |c| && DiffersAt(c, d, i) {
      assert a[..i] == b[..i] && a[i] < b[i];
    }
    if i :| 0 <= i < |a| && i < |b| && a[..i] == b[..i] && a[i] < b[i] {
      assert DiffersAt(c, d, i);
    }
  }

  lemma CodesPrefix(s: string, i: nat)
    requires i <= |s|
    ensures Codes(s)[..i] == Codes(s[..i])
  {
  }

  lemma CodesAt(s: string)
    ensures forall i :: 0 <= i < |s| ==> Codes(s)[i] == s[i] as int
  {
  }

  // ----- written order

  /** In every object of the value each key precedes the later ones. */
  predicate KeysAscend(v: Json) {
    match v
    case JArr(items) => forall x | x in items :: KeysAscend(x)
    case JObj(ms) =>
      && (forall i, j :: 0 <= i < j < |ms| ==> Precedes(ms[i].key, ms[j].key))
      && forall m | m in ms :: KeysAscend(m.value)
    case _ => true
  }

  /** sort_keys: in what is written every object's keys ascend in code point order, at every depth. */
  lemma {:induction false} CanonSortsKeys(v: Json)
    ensures KeysAscend(Canon(v))
    decreases v
  {
    match v
    case JArr(items) =>
      forall x | x in CanonAll(items)
        ensures KeysAscend(x)
      {
        var i :| 0 <= i < |items| && x == Canon(items[i]);
        CanonSortsKeys(items[i]);
      }
    case JObj(ms) =>
      MembersAscend(ms);
      forall m | m in Canon(v).members
        ensures KeysAscend(m.value)
      {
        var i :| 0 <= i < |ms| && m == CanonMembers(ms)[i];
        CanonSortsKeys(ms[i].value);
      }
    case _ =>
  }

  lemma MembersAscend(ms: seq<Member>)
    ensures Canon(JObj(ms)).JObj?
    ensures var sorted := Canon(JObj(ms)).members;
            && (forall i, j :: 0 <= i < j < |sorted| ==> Precedes(sorted[i].key, sorted[j].key))
            && forall m :: m in sorted ==> m in CanonMembers(ms)
  {
    var cs := CanonMembers(ms);
    KeyOrder();
    SortAscending(cs, KeyLeq);
    SortPermutes(cs, KeyLeq);
    var sorted := Canon(JObj(ms)).members;
    forall i, j | 0 <= i < j < |sorted|
      ensures Precedes(sorted[i].key, sorted[j].key)
    {
      assert KeyLeq(sorted[i], sorted[j]);
      LexLeqExactly(sorted[i].key, sorted[j].key);
    }
    forall m | m in sorted
      ensures m in cs
    {
      assert m in multiset(sorted);
    }
  }

  function ArrayValue(): Json {
    JArr([JNull, JBool(true)])
  }

  function LetterB(): Member {
    Member([98], ArrayValue())
  }

  function LetterA(): Member {
    Member([97], JNum("1"))
  }

  lemma ArrayWritten()
    ensures Canon(ArrayValue()) == ArrayValue() && Emit(ArrayValue()) == "[null,true]"
  {
    assert [JNull, JBool(true)][1..] == [JBool(true)] && [JBool(true)][1..] == [];
    assert CanonAll([JBool(true)]) == [JBool(true)];
    assert EmitItems([JBool(true)]) == "true]";
    assert EmitItems([JNull, JBool(true)]) == "null" + ("," + "true]");
  }

  lemma PairSorted()
    ensures Canon(JObj([LetterB(), LetterA()])) == JObj([LetterA(), LetterB()])
  {
    ArrayWritten();
    var b, a := LetterB(), LetterA();
    assert [b, a][1..] == [a] && [a][1..] == [];
    assert CanonMembers([a]) == [a] + CanonMembers([]) == [a];
    assert CanonMembers([b, a]) == [b] + CanonMembers([a]) == [b, a];
    assert LexLeq([97], [98]) && !LexLeq([98], [97]);
    SortTwo(b, a, KeyLeq);
  }

  /** One object written out: sorted keys, no spaces. */
  lemma TwoMembersWritten()
    ensures Dumps(JObj([LetterB(), LetterA()])) == "{\"a\":1,\"b\":[null,true]}"
  {
    hide Canon, EmitMembers, LetterA, LetterB;
    PairSorted();
    PairWritten();
  }

  lemma PairWritten()
    ensures EmitMembers([LetterA(), LetterB()]) == "\"a\":1,\"b\":[null,true]}"
  {
    ArrayWritten();
    OneLetter(97);
    OneLetter(98);
    var a, b := LetterA(), LetterB();
    EmitOne();
    hide *;
    EmitLast(b);
    EmitFirst(a, b);
    assert EmitMembers([b]) == "\"b\"" + ":" + "[null,true]" + "}";
    assert EmitMembers([a, b]) == "\"a\"" + ":" + "1" + ("," + EmitMembers([b]));
  }

  lemma EmitOne()
    ensures LetterA().key == [97] && Emit(LetterA().value) == "1"
    ensures LetterB().key == [98] && Emit(LetterB().value) == Emit(ArrayValue())
  {
  }

  lemma EmitLast(m: Member)
    ensures EmitMembers([m]) == Quote(m.key) + ":" + Emit(m.value) + "}"
  {
  }

  lemma EmitFirst(m: Member, n: Member)
    ensures EmitMembers([m, n]) == Quote(m.key) + ":" + Emit(m.value) + ("," + EmitMembers([n]))
  {
    assert [m, n][1..] == [n];
    hide Emit, Quote;
  }

  lemma SortTwo<T>(b: T, a: T, leq: (T, T) -> bool)
    requires leq(a, b) && !leq(b, a)
    ensures Sort([b, a], leq) == [a, b]
  {
    assert [b, a][1..] == [a] && [a][1..] == [];
    assert Sort([a], leq) == [a];
    assert Insert(b, [], leq) == [b];
  }

  lemma OneLetter(u: CodeUnit)
    requires 'a' as int <= u <= 'z' as int
    ensures Quote([u]) == "\"" + [u as char] + "\""
  {
    assert [u][1..] == [];
    assert Units([u]) == [u] + Units([]);
    assert EscapeAll([u]) == EscapeUnit(u) + EscapeAll([]);
  }

  // ----- the characters of the text

  predicate Printable(s: string) {
    forall i :: 0 <= i < |s| ==> ' ' <= s[i] <= '~'
  }

  lemma {:induction false} EscapedIsPrintable(us: seq<CodeUnit>)
    ensures Printable(EscapeAll(us))
  {
    if us != [] {
      EscapedIsPrintable(us[1..]);
      UnitIsPrintable(us[0]);
    }
  }

  lemma UnitIsPrintable(u: CodeUnit)
    ensures Printable(EscapeUnit(u))
  {
  }

  /** ensure_ascii: whatever is written is printable ASCII. */
  lemma {:induction false} EmitIsPrintable(v: Json)
    requires Tokens(v)
    ensures Printable(Emit(v))
    decreases v, 0
  {
    match v
    case JStr(s) => EscapedIsPrintable(Units(s));
    case JArr(items) =>
      if items != [] {
        ItemsArePrintable(items);
      }
    case JObj(ms) =>
      if ms != [] {
        MembersArePrintable(ms);
      }
    case _ =>
  }

  lemma {:induction false} ItemsArePrintable(items: seq<Json>)
    requires items != [] && Tokens(JArr(items))
    ensures Printable(EmitItems(items))
    decreases items, 1
  {
    hide Emit, Tokens;
    HeadTokens(items);
    EmitIsPrintable(items[0]);
    if |items| > 1 {
      ItemsArePrintable(items[1..]);
    }
  }

  lemma HeadTokens(items: seq<Json>)
    requires items != [] && Tokens(JArr(items))
    ensures Tokens(items[0]) && Tokens(JArr(items[1..]))
  {
  }

  lemma {:induction false} MembersArePrintable(ms: seq<Member>)
    requires ms != [] && Tokens(JObj(ms))
    ensures Printable(EmitMembers(ms))
    decreases ms, 1
  {
    hide Emit, Tokens, EscapeAll;
    FirstTokens(ms);
    EmitIsPrintable(ms[0].value);
    EscapedIsPrintable(Units(ms[0].key));
    if |ms| > 1 {
      MembersArePrintable(ms[1..]);
    }
  }

  lemma FirstTokens(ms: seq<Member>)
    requires ms != [] && Tokens(JObj(ms))
    ensures Tokens(ms[0].value) && Tokens(JObj(ms[1..]))
  {
  }

  /** The seven short escapes, and four lower-case hexadecimal digits for the rest. */
  lemma EscapesSpelled()
    ensures EscapeUnit(34) == "\\\"" && EscapeUnit(92) == "\\\\" && EscapeUnit(8) == "\\b" && EscapeUnit(9) == "\\t"
    ensures EscapeUnit(10) == "\\n" && EscapeUnit(12) == "\\f" && EscapeUnit(13) == "\\r"
    ensures EscapeUnit(0) == "\\u0000" && EscapeUnit(127) == "\\u007f" && EscapeUnit(0xABCD) == "\\uabcd"
    ensures forall u: CodeUnit :: 32 <= u <= 126 && u != 34 && u != 92 ==> EscapeUnit(u) == [u as char]
  {
    assert Hex4(0) == "0000" && Hex4(127) == "007f" && Hex4(0xABCD) == "abcd";
  }

  /** So canonical text is printable ASCII, whatever the value's strings hold. */
  lemma DumpsIsPrintable(v: Json)
    requires Tokens(v)
    ensures Printable(Dumps(v))
  {
    hide Canon, Emit, Tokens;
    CanonKeepsTokens(v);
    EmitIsPrintable(Canon(v));
  }

  // ----- decimals

  /** Decimal notation has no leading zero, and every such digit string is the notation of its value. */
  lemma {:induction false} DecimalExactly(s: string)
    requires s != "" && AllDigits(s)
    ensures Dec(Value(s)) == s <==> s[0] != '0' || |s| == 1
    ensures s[0] != '0' ==> Value(s) > 0
    ensures |s| == 1 ==> Value(s) == s[0] as int - '0' as int
  {
    var n := |s| - 1;
    var init, d := s[..n], s[n] as int - '0' as int;
    assert s == init + [s[n]];
    if n == 0 {
      assert init == "" && Value(s) == d;
    } else {
      DecimalExactly(init);
      assert init[0] == s[0];
      assert Value(s) / 10 == Value(init) && Value(s) % 10 == d;
      if Value(s) >= 10 {
        assert Dec(Value(s)) == Dec(Value(init)) + [s[n]];
        if Dec(Value(s)) == s {
          assert Dec(Value(s))[..|s| - 1] == Dec(Value(init));
        }
      }
      LeadingZero(Value(s));
    }
  }

  lemma {:induction false} LeadingZero(n: nat)
    ensures Dec(n)[0] == '0' ==> n == 0
  {
    if n >= 10 {
      LeadingZero(n / 10);
    }
  }
}
