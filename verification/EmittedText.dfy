/** What canonical text determines: the value with every string seen as its UTF-16 code units. */
module EmittedText {
  import opened Prelude
  import opened Sorting
  import opened JsonText
  import opened CanonicalJson

  /** Number tokens well formed at every depth. */
  predicate Tokens(v: Json) {
    match v
    case JNum(t) => NumberToken(t)
    case JArr(items) => forall x | x in items :: Tokens(x)
    case JObj(ms) => forall m | m in ms :: Tokens(m.value)
    case _ => true
  }

  /** Every string, keys included, replaced by its UTF-16 code units. */
  function Unitized(v: Json): Json
    decreases v
  {
    match v
    case JStr(s) => JStr(Units(s))
    case JArr(items) => JArr(UnitizedAll(items))
    case JObj(ms) => JObj(UnitizedMembers(ms))
    case _ => v
  }

  function UnitizedAll(items: seq<Json>): (r: seq<Json>)
    ensures |r| == |items|
    decreases items
  {
    if items == [] then [] else [Unitized(items[0])] + UnitizedAll(items[1..])
  }

  function UnitizedMembers(ms: seq<Member>): (r: seq<Member>)
    ensures |r| == |ms|
    decreases ms
  {
    if ms == [] then [] else [Member(Units(ms[0].key), Unitized(ms[0].value))] + UnitizedMembers(ms[1..])
  }

  // ----- the first character tells the kind

  function KindOf(v: Json): nat {
    match v
    case JNull => 0
    case JBool(b) => if b then 1 else 2
    case JNum(_) => 3
    case JStr(_) => 4
    case JArr(_) => 5
    case JObj(_) => 6
  }

  function Kind(c: char): nat {
    if c == 'n' then 0
    else if c == 't' then 1
    else if c == 'f' then 2
    else if NumStart(c) then 3
    else if c == '"' then 4
    else if c == '[' then 5
    else if c == '{' then 6
    else 7
  }

  lemma StartsWithKind(v: Json)
    requires Tokens(v)
    ensures Emit(v) != "" && Kind(Emit(v)[0]) == KindOf(v)
  {
  }

  lemma SameKind(a: Json, b: Json, r: string, s: string)
    requires Tokens(a) && Tokens(b) && Emit(a) + r == Emit(b) + s
    ensures KindOf(a) == KindOf(b)
  {
    StartsWithKind(a);
    StartsWithKind(b);
    hide Tokens, Emit;
    assert (Emit(a) + r)[0] == Emit(a)[0] && (Emit(b) + s)[0] == Emit(b)[0];
  }

  lemma Cancel(x: string, r: string, s: string)
    requires x + r == x + s
    ensures r == s
  {
    assert (x + r)[|x|..] == r && (x + s)[|x|..] == s;
  }

  lemma SameNumber(t: string, u: string, r: string, s: string)
    requires NumberToken(t) && NumberToken(u) && Delimited(r) && Delimited(s) && t + r == u + s
    ensures t == u && r == s
  {
    NumberLengthExact(t, r);
    NumberLengthExact(u, s);
    assert (t + r)[..|t|] == t && (u + s)[..|u|] == u;
    Cancel(t, r, s);
  }

  lemma LiteralTail(x: Str, r: string)
    ensures Quote(x) + r != "" && (Quote(x) + r)[1..] == EscapeAll(Units(x)) + "\"" + r
  {
    hide EscapeAll, Units;
    var e := EscapeAll(Units(x));
    assert Quote(x) + r == "\"" + (e + "\"" + r);
  }

  /** A literal determines the code units of its string and what follows it. */
  lemma SameLiteral(x: Str, y: Str, r: string, s: string)
    requires Quote(x) + r == Quote(y) + s
    ensures Units(x) == Units(y) && r == s
  {
    hide *;
    LiteralTail(x, r);
    LiteralTail(y, s);
    ReadEscapedUnits(Units(x), r);
    ReadEscapedUnits(Units(y), s);
  }

  // ----- text determines the unitized value

  /** What follows the first item of an array. */
  function AfterItem(items: seq<Json>): string
    requires items != []
  {
    if |items| == 1 then "]" else "," + EmitItems(items[1..])
  }

  function AfterMember(ms: seq<Member>): string
    requires ms != []
  {
    if |ms| == 1 then "}" else "," + EmitMembers(ms[1..])
  }

  lemma ItemsSplit(items: seq<Json>, r: string)
    requires items != []
    ensures EmitItems(items) + r == Emit(items[0]) + (AfterItem(items) + r)
    ensures Delimited(AfterItem(items) + r)
  {
    hide Emit;
    Assoc(Emit(items[0]), AfterItem(items), r);
  }

  lemma MembersSplit(ms: seq<Member>, r: string)
    requires ms != []
    ensures EmitMembers(ms) + r == Quote(ms[0].key) + (":" + (Emit(ms[0].value) + (AfterMember(ms) + r)))
    ensures Delimited(AfterMember(ms) + r)
  {
    hide Emit, Quote;
    var k, e, t := Quote(ms[0].key), Emit(ms[0].value), AfterMember(ms);
    assert EmitMembers(ms) == k + ":" + e + t;
    assert k + ":" + e + t + r == k + (":" + (e + (t + r)));
  }

  lemma Dropped(c: string, x: string, r: string, y: string, s: string)
    requires (c + x) + r == (c + y) + s
    ensures x + r == y + s
  {
    Assoc(c, x, r);
    Assoc(c, y, s);
    Cancel(c, x + r, y + s);
  }

  lemma {:induction false} EmitDetermines(a: Json, b: Json, r: string, s: string)
    requires Tokens(a) && Tokens(b) && Delimited(r) && Delimited(s) && Emit(a) + r == Emit(b) + s
    ensures Unitized(a) == Unitized(b) && r == s
    decreases a, 0
  {
    SameKind(a, b, r, s);
    match a
    case JNum(t) => SameNumber(t, b.token, r, s);
    case JStr(x) => SameLiteral(x, b.s, r, s);
    case JArr(items) => ArraysDetermine(items, b.items, r, s);
    case JObj(ms) => ObjectsDetermine(ms, b.members, r, s);
    case _ => Cancel(Emit(a), r, s);
  }

  lemma {:induction false} ArraysDetermine(xs: seq<Json>, ys: seq<Json>, r: string, s: string)
    requires Tokens(JArr(xs)) && Tokens(JArr(ys)) && Emit(JArr(xs)) + r == Emit(JArr(ys)) + s
    ensures UnitizedAll(xs) == UnitizedAll(ys) && r == s
    decreases xs, 1
  {
    ArrayStart(xs, r);
    ArrayStart(ys, s);
    if xs == [] {
      Cancel("[]", r, s);
    } else {
      Dropped("[", EmitItems(xs), r, EmitItems(ys), s);
      ItemsDetermine(xs, ys, r, s);
    }
  }

  lemma ArrayStart(xs: seq<Json>, r: string)
    requires Tokens(JArr(xs))
    ensures |Emit(JArr(xs)) + r| > 1 && ((Emit(JArr(xs)) + r)[1] == ']' <==> xs == [])
  {
    if xs != [] {
      StartsWithKind(xs[0]);
      assert EmitItems(xs)[0] == Emit(xs[0])[0];
      assert (Emit(JArr(xs)) + r)[1] == EmitItems(xs)[0];
    }
  }

  lemma {:induction false} ItemsDetermine(xs: seq<Json>, ys: seq<Json>, r: string, s: string)
    requires xs != [] && ys != [] && Tokens(JArr(xs)) && Tokens(JArr(ys)) && EmitItems(xs) + r == EmitItems(ys) + s
    ensures UnitizedAll(xs) == UnitizedAll(ys) && r == s
    decreases xs, 0
  {
    hide Emit, EmitItems, Unitized;
    ItemsSplit(xs, r);
    ItemsSplit(ys, s);
    EmitDetermines(xs[0], ys[0], AfterItem(xs) + r, AfterItem(ys) + s);
    assert (AfterItem(xs) + r)[0] == AfterItem(xs)[0] && (AfterItem(ys) + s)[0] == AfterItem(ys)[0];
    if |xs| == 1 {
      Cancel("]", r, s);
      assert xs[1..] == [] && ys[1..] == [];
    } else {
      Dropped(",", EmitItems(xs[1..]), r, EmitItems(ys[1..]), s);
      ItemsDetermine(xs[1..], ys[1..], r, s);
    }
  }

  lemma {:induction false} ObjectsDetermine(xs: seq<Member>, ys: seq<Member>, r: string, s: string)
    requires Tokens(JObj(xs)) && Tokens(JObj(ys)) && Emit(JObj(xs)) + r == Emit(JObj(ys)) + s
    ensures UnitizedMembers(xs) == UnitizedMembers(ys) && r == s
    decreases xs, 1
  {
    ObjectStart(xs, r);
    ObjectStart(ys, s);
    if xs == [] {
      Cancel("{}", r, s);
    } else {
      Dropped("{", EmitMembers(xs), r, EmitMembers(ys), s);
      MembersDetermine(xs, ys, r, s);
    }
  }

  lemma ObjectStart(xs: seq<Member>, r: string)
    ensures |Emit(JObj(xs)) + r| > 1 && ((Emit(JObj(xs)) + r)[1] == '}' <==> xs == [])
  {
    if xs != [] {
      assert EmitMembers(xs)[0] == '"';
      assert (Emit(JObj(xs)) + r)[1] == EmitMembers(xs)[0];
    }
  }

  lemma {:induction false} MembersDetermine(xs: seq<Member>, ys: seq<Member>, r: string, s: string)
    requires xs != [] && ys != [] && Tokens(JObj(xs)) && Tokens(JObj(ys))
    requires EmitMembers(xs) + r == EmitMembers(ys) + s
    ensures UnitizedMembers(xs) == UnitizedMembers(ys) && r == s
    decreases xs, 0
  {
    hide Emit, EmitMembers, Unitized, Quote, Units;
    MembersSplit(xs, r);
    MembersSplit(ys, s);
    var t, u := AfterMember(xs) + r, AfterMember(ys) + s;
    SameLiteral(xs[0].key, ys[0].key, ":" + (Emit(xs[0].value) + t), ":" + (Emit(ys[0].value) + u));
    Cancel(":", Emit(xs[0].value) + t, Emit(ys[0].value) + u);
    EmitDetermines(xs[0].value, ys[0].value, t, u);
    assert t[0] == AfterMember(xs)[0] && u[0] == AfterMember(ys)[0];
    if |xs| == 1 {
      Cancel("}", r, s);
      assert xs[1..] == [] && ys[1..] == [];
    } else {
      Dropped(",", EmitMembers(xs[1..]), r, EmitMembers(ys[1..]), s);
      MembersDetermine(xs[1..], ys[1..], r, s);
    }
  }

  // ----- and is determined by it

  lemma {:induction false} UnitizedDetermines(a: Json, b: Json)
    requires Unitized(a) == Unitized(b)
    ensures Emit(a) == Emit(b)
    decreases a, 0
  {
    match a
    case JArr(items) =>
      assert |items| == |b.items|;
      if items != [] {
        ItemsWritten(items, b.items);
      }
    case JObj(ms) =>
      assert |ms| == |b.members|;
      if ms != [] {
        MembersWritten(ms, b.members);
      }
    case _ =>
  }

  lemma {:induction false} ItemsWritten(xs: seq<Json>, ys: seq<Json>)
    requires xs != [] && ys != [] && UnitizedAll(xs) == UnitizedAll(ys)
    ensures EmitItems(xs) == EmitItems(ys)
    decreases xs, 0
  {
    hide Emit, Unitized;
    assert |xs| == |UnitizedAll(xs)| == |ys|;
    assert UnitizedAll(xs)[0] == Unitized(xs[0]) && UnitizedAll(ys)[0] == Unitized(ys[0]);
    assert UnitizedAll(xs)[1..] == UnitizedAll(xs[1..]) && UnitizedAll(ys)[1..] == UnitizedAll(ys[1..]);
    UnitizedDetermines(xs[0], ys[0]);
    if |xs| > 1 {
      ItemsWritten(xs[1..], ys[1..]);
    }
  }

  lemma {:induction false} MembersWritten(xs: seq<Member>, ys: seq<Member>)
    requires xs != [] && ys != [] && UnitizedMembers(xs) == UnitizedMembers(ys)
    ensures EmitMembers(xs) == EmitMembers(ys)
    decreases xs, 0
  {
    hide Emit, Unitized, Units;
    assert |xs| == |UnitizedMembers(xs)| == |ys|;
    assert UnitizedMembers(xs)[0] == Member(Units(xs[0].key), Unitized(xs[0].value));
    assert UnitizedMembers(ys)[0] == Member(Units(ys[0].key), Unitized(ys[0].value));
    assert UnitizedMembers(xs)[1..] == UnitizedMembers(xs[1..]);
    assert UnitizedMembers(ys)[1..] == UnitizedMembers(ys[1..]);
    UnitizedDetermines(xs[0].value, ys[0].value);
    if |xs| > 1 {
      MembersWritten(xs[1..], ys[1..]);
    }
  }

  lemma {:induction false} CanonKeepsTokens(v: Json)
    requires Tokens(v)
    ensures Tokens(Canon(v))
    decreases v
  {
    match v
    case JArr(items) =>
      forall x | x in CanonAll(items)
        ensures Tokens(x)
      {
        var i :| 0 <= i < |items| && x == Canon(items[i]);
        CanonKeepsTokens(items[i]);
      }
    case JObj(ms) =>
      var cs := CanonMembers(ms);
      SortPermutes(cs, KeyLeq);
      forall m | m in Sort(cs, KeyLeq)
        ensures Tokens(m.value)
      {
        assert m in multiset(Sort(cs, KeyLeq)) && m in cs;
        var i :| 0 <= i < |cs| && m == cs[i];
        CanonKeepsTokens(ms[i].value);
      }
    case _ =>
  }

  /**
   For any values with proper number tokens, split pairs and repeated keys included: their canonical
   texts are equal if and only if their key-sorted values are, string by string in UTF-16 code units.
   */
  lemma DumpsEqualExactly(a: Json, b: Json)
    requires Tokens(a) && Tokens(b)
    ensures Dumps(a) == Dumps(b) <==> Unitized(Canon(a)) == Unitized(Canon(b))
  {
    CanonKeepsTokens(a);
    CanonKeepsTokens(b);
    hide Tokens, Canon, Emit, Unitized;
    if Dumps(a) == Dumps(b) {
      EmitDetermines(Canon(a), Canon(b), "", "");
    }
    if Unitized(Canon(a)) == Unitized(Canon(b)) {
      UnitizedDetermines(Canon(a), Canon(b));
    }
  }
}
