/**
 Canonical JSON: sorted members, no spaces, ASCII only.  `Emit` writes members in the order they
 stand; `Dumps` sorts the members of every object first (sort_keys=True).  `Loads` is the reader of
 the compact form, refusing duplicate keys.
 */
module CanonicalJson {
  import opened Prelude
  import opened Sorting
  import opened JsonText

  datatype Member = Member(key: Str, value: Json)

  /** A normalized value. A number is an opaque canonical token; a member list keeps insertion order. */
  datatype Json =
    | JNull
    | JBool(b: bool)
    | JNum(token: string)
    | JStr(s: Str)
    | JArr(items: seq<Json>)
    | JObj(members: seq<Member>)

  predicate NumChar(c: char) {
    '0' <= c <= '9' || c == '-' || c == '+' || c == '.' || c == 'e'
  }

  predicate NumStart(c: char) {
    '0' <= c <= '9' || c == '-'
  }

  predicate NumberToken(t: string) {
    t != "" && NumStart(t[0]) && forall i :: 0 <= i < |t| ==> NumChar(t[i])
  }

  function Keys(ms: seq<Member>): (r: seq<Str>)
    ensures |r| == |ms|
    ensures forall i :: 0 <= i < |ms| ==> r[i] == ms[i].key
  {
    Image(ms, (m: Member) => m.key)
  }

  /** Keys distinct, number tokens well formed, no split surrogate pair in any string. */
  predicate WF(v: Json) {
    match v
    case JNull => true
    case JBool(_) => true
    case JNum(t) => NumberToken(t)
    case JStr(s) => NoSplitPair(s)
    case JArr(items) => forall x | x in items :: WF(x)
    case JObj(ms) => Distinct(Keys(ms)) && forall m | m in ms :: NoSplitPair(m.key) && WF(m.value)
  }

  // ----- writing

  function Emit(v: Json): string
    decreases v
  {
    match v
    case JNull => "null"
    case JBool(b) => if b then "true" else "false"
    case JNum(t) => t
    case JStr(s) => Quote(s)
    case JArr(items) => if items == [] then "[]" else "[" + EmitItems(items)
    case JObj(ms) => if ms == [] then "{}" else "{" + EmitMembers(ms)
  }

  /** The items, comma separated, with the closing bracket. */
  function EmitItems(items: seq<Json>): string
    requires items != []
    decreases items
  {
    Emit(items[0]) + if |items| == 1 then "]" else "," + EmitItems(items[1..])
  }

  function EmitMembers(ms: seq<Member>): string
    requires ms != []
    decreases ms
  {
    Quote(ms[0].key) + ":" + Emit(ms[0].value) + if |ms| == 1 then "}" else "," + EmitMembers(ms[1..])
  }

  predicate KeyLeq(a: Member, b: Member) {
    LexLeq(a.key, b.key)
  }

  /** The value with the members of every object sorted by key. */
  function Canon(v: Json): Json
    decreases v
  {
    match v
    case JArr(items) => JArr(CanonAll(items))
    case JObj(ms) => JObj(Sort(CanonMembers(ms), KeyLeq))
    case _ => v
  }

  function CanonAll(items: seq<Json>): (r: seq<Json>)
    ensures |r| == |items|
    ensures forall i :: 0 <= i < |items| ==> r[i] == Canon(items[i])
    decreases items
  {
    if items == [] then [] else [Canon(items[0])] + CanonAll(items[1..])
  }

  function CanonMembers(ms: seq<Member>): (r: seq<Member>)
    ensures |r| == |ms|
    ensures forall i :: 0 <= i < |ms| ==> r[i] == Member(ms[i].key, Canon(ms[i].value))
    decreases ms
  {
    if ms == [] then [] else [Member(ms[0].key, Canon(ms[0].value))] + CanonMembers(ms[1..])
  }

  /** json.dumps(value, ensure_ascii=True, separators=(",", ":"), sort_keys=True). */
  function Dumps(v: Json): string {
    Emit(Canon(v))
  }

  // ----- reading

  function NumberLength(s: string): (n: nat)
    ensures n <= |s|
    ensures forall i :: 0 <= i < n ==> NumChar(s[i])
    ensures n < |s| ==> !NumChar(s[n])
  {
    if s == "" || !NumChar(s[0]) then 0 else 1 + NumberLength(s[1..])
  }

  predicate Starts(s: string, word: string) {
    |word| <= |s| && s[..|word|] == word
  }

  function ReadScalar(s: string): (r: Option<(Json, string)>)
    requires s != ""
    ensures r.Some? ==> |r.value.1| < |s|
  {
    if s[0] == '"' then
      var r := ReadString(s);
      if r.None? then None else Some((JStr(r.value.0), r.value.1))
    else if NumStart(s[0]) then
      var n := NumberLength(s);
      Some((JNum(s[..n]), s[n..]))
    else if Starts(s, "null") then Some((JNull, s[4..]))
    else if Starts(s, "true") then Some((JBool(true), s[4..]))
    else if Starts(s, "false") then Some((JBool(false), s[5..]))
    else None
  }

  function ReadValue(s: string): (r: Option<(Json, string)>)
    ensures r.Some? ==> |r.value.1| < |s|
    decreases |s|, 0
  {
    if s == "" then None
    else if s[0] == '[' then
      if |s| > 1 && s[1] == ']' then Some((JArr([]), s[2..]))
      else
        var r := ReadItems(s[1..]);
        if r.None? then None else Some((JArr(r.value.0), r.value.1))
    else if s[0] == '{' then
      if |s| > 1 && s[1] == '}' then Some((JObj([]), s[2..]))
      else
        var r := ReadMembers(s[1..]);
        if r.None? || !Distinct(Keys(r.value.0)) then None else Some((JObj(r.value.0), r.value.1))
    else ReadScalar(s)
  }

  function ReadItems(s: string): (r: Option<(seq<Json>, string)>)
    ensures r.Some? ==> |r.value.1| < |s|
    decreases |s|, 1
  {
    var head := ReadValue(s);
    if head.None? || head.value.1 == "" then None
    else
      var rest := head.value.1;
      if rest[0] == ']' then Some(([head.value.0], rest[1..]))
      else if rest[0] == ',' then
        var tail := ReadItems(rest[1..]);
        if tail.None? then None else Some(([head.value.0] + tail.value.0, tail.value.1))
      else None
  }

  function ReadMembers(s: string): (r: Option<(seq<Member>, string)>)
    ensures r.Some? ==> |r.value.1| < |s|
    decreases |s|, 1
  {
    var key := ReadString(s);
    if key.None? || key.value.1 == "" || key.value.1[0] != ':' then None
    else
      var head := ReadValue(key.value.1[1..]);
      if head.None? || head.value.1 == "" then None
      else
        var member := Member(key.value.0, head.value.0);
        var rest := head.value.1;
        if rest[0] == '}' then Some(([member], rest[1..]))
        else if rest[0] == ',' then
          var tail := ReadMembers(rest[1..]);
          if tail.None? then None else Some(([member] + tail.value.0, tail.value.1))
        else None
  }

  /** json.loads with the duplicate-key hook, on compact text. */
  function Loads(s: string): Option<Json> {
    var r := ReadValue(s);
    if r.Some? && r.value.1 == "" then Some(r.value.0) else None
  }

  // ----- round trip

  /** What may follow a value: nothing that could lengthen a number. */
  predicate Delimited(rest: string) {
    rest == "" || !NumChar(rest[0])
  }

  lemma {:induction false} NumberLengthExact(t: string, rest: string)
    requires forall i :: 0 <= i < |t| ==> NumChar(t[i])
    requires Delimited(rest)
    ensures NumberLength(t + rest) == |t|
  {
    if t == "" {
      assert t + rest == rest;
    } else {
      assert (t + rest)[1..] == t[1..] + rest;
      NumberLengthExact(t[1..], rest);
    }
  }

  lemma EmitStart(v: Json)
    requires WF(v)
    ensures Emit(v) != ""
    ensures Emit(v)[0] != ']' && Emit(v)[0] != '}'
    ensures !v.JArr? && !v.JObj? ==> Emit(v)[0] != '[' && Emit(v)[0] != '{'
  {
  }

  lemma ReadWord(word: string, rest: string)
    requires word in ["null", "true", "false"]
    ensures ReadScalar(word + rest) ==
            Some((if word == "null" then JNull else JBool(word == "true"), rest))
  {
    var s := word + rest;
    assert s[..|word|] == word && s[|word|..] == rest && s[0] == word[0];
  }

  lemma ReadEmittedScalar(v: Json, rest: string)
    requires WF(v) && Delimited(rest) && !v.JArr? && !v.JObj?
    ensures ReadScalar(Emit(v) + rest) == Some((v, rest))
  {
    var s := Emit(v) + rest;
    match v
    case JNull => ReadWord("null", rest);
    case JBool(b) => ReadWord(if b then "true" else "false", rest);
    case JNum(t) =>
      NumberLengthExact(t, rest);
      assert s[0] == t[0] && s[..|t|] == t && s[|t|..] == rest;
    case JStr(x) =>
      ReadQuoted(x, rest);
  }

  lemma ReadArray(t: string, items: seq<Json>, rest: string)
    requires t != "" && t[0] != ']' && ReadItems(t) == Some((items, rest))
    ensures ReadValue("[" + t) == Some((JArr(items), rest))
  {
    var s := "[" + t;
    assert s[0] == '[' && s[1] == t[0] && s[1..] == t;
  }

  lemma ReadObject(t: string, ms: seq<Member>, rest: string)
    requires t != "" && t[0] != '}' && ReadMembers(t) == Some((ms, rest)) && Distinct(Keys(ms))
    ensures ReadValue("{" + t) == Some((JObj(ms), rest))
  {
    var s := "{" + t;
    assert s[0] == '{' && s[1] == t[0] && s[1..] == t;
  }

  lemma ReadEmpty(rest: string)
    ensures ReadValue("[]" + rest) == Some((JArr([]), rest))
    ensures ReadValue("{}" + rest) == Some((JObj([]), rest))
  {
    var a, o := "[]" + rest, "{}" + rest;
    assert a[0] == '[' && a[1] == ']' && a[2..] == rest;
    assert o[0] == '{' && o[1] == '}' && o[2..] == rest;
  }

  lemma {:induction false} ReadEmitted(v: Json, rest: string)
    requires WF(v) && Delimited(rest)
    ensures ReadValue(Emit(v) + rest) == Some((v, rest))
    decreases v, 0
  {
    match v
    case JArr(items) =>
      ReadEmpty(rest);
      if items != [] {
        ReadEmittedArray(items, rest);
      }
    case JObj(ms) =>
      ReadEmpty(rest);
      if ms != [] {
        ReadEmittedObject(ms, rest);
      }
    case _ =>
      EmitStart(v);
      ReadEmittedScalar(v, rest);
  }

  lemma ReadEmittedArray(items: seq<Json>, rest: string)
    requires items != [] && forall x | x in items :: WF(x)
    ensures ReadValue(Emit(JArr(items)) + rest) == Some((JArr(items), rest))
    decreases items, 2
  {
    var t := EmitItems(items);
    ReadEmittedItems(items, rest);
    EmitStart(items[0]);
    assert t[0] == Emit(items[0])[0];
    Assoc("[", t, rest);
    ReadArray(t + rest, items, rest);
  }

  lemma ReadEmittedObject(ms: seq<Member>, rest: string)
    requires ms != [] && WF(JObj(ms))
    ensures ReadValue(Emit(JObj(ms)) + rest) == Some((JObj(ms), rest))
    decreases ms, 2
  {
    var t := EmitMembers(ms);
    ReadEmittedMembers(ms, rest);
    assert t[0] == '"';
    Assoc("{", t, rest);
    ReadObject(t + rest, ms, rest);
  }

  lemma ReadLastItem(s: string, v: Json, rest: string)
    requires ReadValue(s) == Some((v, "]" + rest))
    ensures ReadItems(s) == Some(([v], rest))
  {
    assert ("]" + rest)[1..] == rest;
  }

  lemma ReadNextItem(s: string, v: Json, t: string, vs: seq<Json>, rest: string)
    requires ReadValue(s) == Some((v, "," + t)) && ReadItems(t) == Some((vs, rest))
    ensures ReadItems(s) == Some(([v] + vs, rest))
  {
    assert ("," + t)[1..] == t;
  }

  lemma {:induction false} ReadEmittedItems(items: seq<Json>, rest: string)
    requires items != [] && forall x | x in items :: WF(x)
    ensures ReadItems(EmitItems(items) + rest) == Some((items, rest))
    decreases items, 1
  {
    var s := EmitItems(items) + rest;
    if |items| == 1 {
      assert s == Emit(items[0]) + ("]" + rest);
      ReadEmitted(items[0], "]" + rest);
      ReadLastItem(s, items[0], rest);
      assert items == [items[0]];
    } else {
      var t := EmitItems(items[1..]) + rest;
      assert s == Emit(items[0]) + ("," + t);
      ReadEmitted(items[0], "," + t);
      ReadEmittedItems(items[1..], rest);
      ReadNextItem(s, items[0], t, items[1..], rest);
      assert items == [items[0]] + items[1..];
    }
  }

  lemma ReadLastMember(s: string, m: Member, body: string, rest: string)
    requires ReadString(s) == Some((m.key, ":" + body))
    requires ReadValue(body) == Some((m.value, "}" + rest))
    ensures ReadMembers(s) == Some(([m], rest))
  {
    assert (":" + body)[1..] == body && ("}" + rest)[1..] == rest;
    assert Member(m.key, m.value) == m;
  }

  lemma ReadNextMember(s: string, m: Member, body: string, t: string, ms: seq<Member>, rest: string)
    requires ReadString(s) == Some((m.key, ":" + body))
    requires ReadValue(body) == Some((m.value, "," + t)) && ReadMembers(t) == Some((ms, rest))
    ensures ReadMembers(s) == Some(([m] + ms, rest))
  {
    assert (":" + body)[1..] == body && ("," + t)[1..] == t;
    assert Member(m.key, m.value) == m;
  }

  lemma Regroup(a: string, b: string, c: string, d: string, e: string)
    ensures a + b + c + d + e == a + (b + (c + (d + e)))
  {
  }

  lemma MembersText(ms: seq<Member>, rest: string)
    requires ms != []
    ensures |ms| == 1 ==>
              EmitMembers(ms) + rest == Quote(ms[0].key) + (":" + (Emit(ms[0].value) + ("}" + rest)))
    ensures |ms| > 1 ==>
              EmitMembers(ms) + rest ==
              Quote(ms[0].key) + (":" + (Emit(ms[0].value) + ("," + (EmitMembers(ms[1..]) + rest))))
  {
    var k, e := Quote(ms[0].key), Emit(ms[0].value);
    var tail := if |ms| == 1 then "}" else "," + EmitMembers(ms[1..]);
    Regroup(k, ":", e, tail, rest);
    if |ms| > 1 {
      Assoc(",", EmitMembers(ms[1..]), rest);
    }
  }

  lemma {:induction false} ReadEmittedMembers(ms: seq<Member>, rest: string)
    requires ms != [] && forall m | m in ms :: NoSplitPair(m.key) && WF(m.value)
    ensures ReadMembers(EmitMembers(ms) + rest) == Some((ms, rest))
    decreases ms, 1
  {
    hide Emit, EmitMembers, ReadMembers, ReadValue;
    MembersText(ms, rest);
    var s, m := EmitMembers(ms) + rest, ms[0];
    if |ms| == 1 {
      var body := Emit(m.value) + ("}" + rest);
      ReadQuoted(m.key, ":" + body);
      ReadEmitted(m.value, "}" + rest);
      ReadLastMember(s, m, body, rest);
      assert ms == [m];
    } else {
      var t := EmitMembers(ms[1..]) + rest;
      var body := Emit(m.value) + ("," + t);
      ReadQuoted(m.key, ":" + body);
      ReadEmitted(m.value, "," + t);
      ReadEmittedMembers(ms[1..], rest);
      ReadNextMember(s, m, body, t, ms[1..], rest);
      assert ms == [m] + ms[1..];
    }
  }

  lemma KeyOrder()
    ensures TotalPreorder(KeyLeq)
    ensures forall a, b :: KeyLeq(a, b) && KeyLeq(b, a) ==> a.key == b.key
  {
    forall a: Member, b: Member
      ensures KeyLeq(a, b) || KeyLeq(b, a)
      ensures KeyLeq(a, b) && KeyLeq(b, a) ==> a.key == b.key
    {
      LexTotal(a.key, b.key);
    }
    forall a: Member, b: Member, c: Member | KeyLeq(a, b) && KeyLeq(b, c)
      ensures KeyLeq(a, c)
    {
      LexTransitive(a.key, b.key, c.key);
    }
  }

  /** Permuting a member list permutes its keys, so distinctness is kept. */
  lemma PermutedKeys(a: seq<Member>, b: seq<Member>)
    requires multiset(a) == multiset(b)
    ensures Distinct(Keys(a)) <==> Distinct(Keys(b))
    ensures forall m :: m in a <==> m in b
  {
    ImageOfPermutation(a, b, (m: Member) => m.key);
    DistinctCounts(Keys(a));
    DistinctCounts(Keys(b));
    assert forall m :: (m in a <==> m in multiset(a)) && (m in b <==> m in multiset(b));
  }

  lemma {:induction false} CanonKeepsWF(v: Json)
    requires WF(v)
    ensures WF(Canon(v))
    decreases v
  {
    match v
    case JArr(items) =>
      forall x | x in CanonAll(items)
        ensures WF(x)
      {
        var i :| 0 <= i < |items| && x == Canon(items[i]);
        CanonKeepsWF(items[i]);
      }
    case JObj(ms) =>
      var cs := CanonMembers(ms);
      assert Keys(cs) == Keys(ms);
      SortPermutes(cs, KeyLeq);
      PermutedKeys(cs, Sort(cs, KeyLeq));
      forall m | m in cs
        ensures NoSplitPair(m.key) && WF(m.value)
      {
        var i :| 0 <= i < |cs| && m == cs[i];
        CanonKeepsWF(ms[i].value);
      }
    case _ =>
  }

  /** Reading canonical text gives back the value, its members now in key order. */
  lemma LoadsDumps(v: Json)
    requires WF(v)
    ensures Loads(Dumps(v)) == Some(Canon(v))
  {
    CanonKeepsWF(v);
    ReadEmitted(Canon(v), "");
    assert Dumps(v) + "" == Dumps(v);
  }

  /** Sorting members never repairs a value: if the sorted value is well formed, so was the original. */
  lemma {:induction false} CanonReflectsWF(v: Json)
    requires WF(Canon(v))
    ensures WF(v)
    decreases v
  {
    match v
    case JArr(items) =>
      forall x | x in items
        ensures WF(x)
      {
        var i :| 0 <= i < |items| && x == items[i];
        assert CanonAll(items)[i] in CanonAll(items);
        CanonReflectsWF(items[i]);
      }
    case JObj(ms) =>
      var cs := CanonMembers(ms);
      assert Keys(cs) == Keys(ms);
      SortPermutes(cs, KeyLeq);
      PermutedKeys(cs, Sort(cs, KeyLeq));
      forall m | m in ms
        ensures NoSplitPair(m.key) && WF(m.value)
      {
        var i :| 0 <= i < |ms| && m == ms[i];
        assert cs[i] in cs;
        CanonReflectsWF(ms[i].value);
      }
    case _ =>
  }

  /** Canonical text reads back as the value with sorted members if and only if the value is well formed. */
  lemma LoadsDumpsExactly(v: Json)
    ensures Loads(Dumps(v)) == Some(Canon(v)) <==> WF(v)
  {
    hide *;
    if WF(v) {
      LoadsDumps(v);
    }
    if Loads(Dumps(v)) == Some(Canon(v)) {
      LoadsWF(Dumps(v));
      CanonReflectsWF(v);
    }
  }

  /** Injectivity: equal texts exactly for values that differ only in member order. */
  lemma DumpsInjective(a: Json, b: Json)
    requires WF(a) && WF(b)
    ensures Dumps(a) == Dumps(b) <==> Canon(a) == Canon(b)
  {
    LoadsDumps(a);
    LoadsDumps(b);
  }

  /** Whatever the reader accepts is well formed. */
  lemma {:induction false} ReadsWF(s: string)
    ensures ReadValue(s).Some? ==> WF(ReadValue(s).value.0)
    decreases |s|, 0
  {
    if s == "" {
    } else if s[0] == '[' {
      ReadsWFItems(s[1..]);
    } else if s[0] == '{' {
      ReadsWFMembers(s[1..]);
    } else if s[0] == '"' && ReadString(s).Some? {
      PointsNeverSplit(ReadUnits(s[1..]).value.0);
    }
  }

  lemma {:induction false} ReadsWFItems(s: string)
    ensures ReadItems(s).Some? ==> forall x | x in ReadItems(s).value.0 :: WF(x)
    decreases |s|, 1
  {
    ReadsWF(s);
    var head := ReadValue(s);
    if head.Some? && head.value.1 != "" && head.value.1[0] == ',' {
      ReadsWFItems(head.value.1[1..]);
    }
  }

  lemma {:induction false} ReadsWFMembers(s: string)
    ensures ReadMembers(s).Some? ==> forall m | m in ReadMembers(s).value.0 :: NoSplitPair(m.key) && WF(m.value)
    decreases |s|, 1
  {
    var key := ReadString(s);
    if key.Some? && key.value.1 != "" && key.value.1[0] == ':' {
      PointsNeverSplit(ReadUnits(s[1..]).value.0);
      var head := ReadValue(key.value.1[1..]);
      ReadsWF(key.value.1[1..]);
      if head.Some? && head.value.1 != "" && head.value.1[0] == ',' {
        ReadsWFMembers(head.value.1[1..]);
      }
    }
  }

  lemma LoadsWF(s: string)
    ensures Loads(s).Some? ==> WF(Loads(s).value)
  {
    ReadsWF(s);
  }
}
