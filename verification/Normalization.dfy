/** Normalization of Python values before canonical serialization, and what it does not depend on. */
module Normalization {
  import opened Prelude
  import opened Sorting
  import opened JsonText
  import opened CanonicalJson

  datatype Item = Item(key: Option<Str>, value: Value)

  /** The Python values the normalizer distinguishes. A mapping key that is not a string is None. */
  datatype Value =
    | None_
    | Bool(b: bool)
    | Number(finite: bool, token: string)
    | Text(s: Str)
    | Bytes
    | Decimal(finite: bool, fixed: Str)
    | Datetime(aware: bool, utc: Str)
    | Date(iso: Str)
    | FilePath(posix: Str)
    | EnumMember(of: Value)
    | Model(dump: Value)
    | Mapping(items: seq<Item>)
    | SetOf(elements: seq<Value>)
    | Sequence(elements: seq<Value>)
    | Unsupported

  datatype Refusal = NaiveDatetime | NonFinite | RawBytes | NonStringKey | UnsupportedType

  predicate DumpsLeq(a: Json, b: Json) {
    TextLeq(Dumps(a), Dumps(b))
  }

  function Normalize(v: Value): Result<Json, Refusal>
    decreases v
  {
    match v
    case Model(dump) => Normalize(dump)
    case EnumMember(of) => Normalize(of)
    case FilePath(posix) => Ok(JStr(posix))
    case Datetime(aware, utc) => if aware then Ok(JStr(utc)) else Err(NaiveDatetime)
    case Date(iso) => Ok(JStr(iso))
    case Decimal(finite, fixed) => if finite then Ok(JStr(fixed)) else Err(NonFinite)
    case Number(finite, token) => if finite then Ok(JNum(token)) else Err(NonFinite)
    case None_ => Ok(JNull)
    case Bool(b) => Ok(JBool(b))
    case Text(s) => Ok(JStr(s))
    case Bytes => Err(RawBytes)
    case Mapping(items) =>
      var r := NormalizeItems(items);
      if r.Ok? then Ok(JObj(r.value)) else Err(r.error)
    case SetOf(elements) =>
      var r := NormalizeAll(elements);
      if r.Ok? then Ok(JArr(Sort(r.value, DumpsLeq))) else Err(r.error)
    case Sequence(elements) =>
      var r := NormalizeAll(elements);
      if r.Ok? then Ok(JArr(r.value)) else Err(r.error)
    case Unsupported => Err(UnsupportedType)
  }

  function NormalizeAll(vs: seq<Value>): (r: Result<seq<Json>, Refusal>)
    ensures r.Ok? ==> |r.value| == |vs|
    decreases vs
  {
    if vs == [] then Ok([])
    else
      var head := Normalize(vs[0]);
      if head.Err? then Err(head.error)
      else
        var tail := NormalizeAll(vs[1..]);
        if tail.Err? then tail else Ok([head.value] + tail.value)
  }

  function NormalizeItems(items: seq<Item>): (r: Result<seq<Member>, Refusal>)
    ensures r.Ok? ==> |r.value| == |items|
    decreases items
  {
    if items == [] then Ok([])
    else if items[0].key.None? then Err(NonStringKey)
    else
      assert items[0].value < items[0];
      var head := Normalize(items[0].value);
      if head.Err? then Err(head.error)
      else
        var tail := NormalizeItems(items[1..]);
        if tail.Err? then tail else Ok([Member(items[0].key.value, head.value)] + tail.value)
  }

  function CanonicalText(v: Value): Result<string, Refusal> {
    var r := Normalize(v);
    if r.Ok? then Ok(Dumps(r.value)) else Err(r.error)
  }

  // ----- idempotence

  /** A normalized value seen again as a Python value. */
  function Embed(j: Json): Value
    decreases j
  {
    match j
    case JNull => None_
    case JBool(b) => Bool(b)
    case JNum(t) => Number(true, t)
    case JStr(s) => Text(s)
    case JArr(items) => Sequence(EmbedAll(items))
    case JObj(ms) => Mapping(EmbedMembers(ms))
  }

  function EmbedAll(js: seq<Json>): seq<Value>
    decreases js
  {
    if js == [] then [] else [Embed(js[0])] + EmbedAll(js[1..])
  }

  function EmbedMembers(ms: seq<Member>): seq<Item>
    decreases ms
  {
    if ms == [] then [] else [Item(Some(ms[0].key), Embed(ms[0].value))] + EmbedMembers(ms[1..])
  }

  lemma {:induction false} NormalizeEmbed(j: Json)
    ensures Normalize(Embed(j)) == Ok(j)
    decreases j, 1
  {
    match j
    case JArr(items) => NormalizeEmbedAll(items);
    case JObj(ms) => NormalizeEmbedMembers(ms);
    case _ =>
  }

  lemma {:induction false} NormalizeEmbedAll(js: seq<Json>)
    ensures NormalizeAll(EmbedAll(js)) == Ok(js)
    decreases js, 0
  {
    if js != [] {
      NormalizeEmbed(js[0]);
      NormalizeEmbedAll(js[1..]);
      assert EmbedAll(js)[1..] == EmbedAll(js[1..]);
      assert js == [js[0]] + js[1..];
    }
  }

  lemma {:induction false} NormalizeEmbedMembers(ms: seq<Member>)
    ensures NormalizeItems(EmbedMembers(ms)) == Ok(ms)
    decreases ms, 0
  {
    hide Normalize, Embed;
    if ms != [] {
      var head := Item(Some(ms[0].key), Embed(ms[0].value));
      NormalizeEmbed(ms[0].value);
      NormalizeEmbedMembers(ms[1..]);
      NormalizeCons(head, EmbedMembers(ms[1..]), ms[0], ms[1..]);
      assert ms == [ms[0]] + ms[1..];
    }
  }

  lemma NormalizeCons(head: Item, tail: seq<Item>, m: Member, ms: seq<Member>)
    requires head.key == Some(m.key) && Normalize(head.value) == Ok(m.value) && NormalizeItems(tail) == Ok(ms)
    ensures NormalizeItems([head] + tail) == Ok([m] + ms)
  {
    hide Normalize;
    var items := [head] + tail;
    assert items[0] == head && items[1..] == tail;
    assert Member(m.key, m.value) == m;
  }

  /** Normalizing a normalized value changes nothing, and so neither does serializing it. */
  lemma NormalizeIdempotent(v: Value)
    requires Normalize(v).Ok?
    ensures Normalize(Embed(Normalize(v).value)) == Normalize(v)
    ensures CanonicalText(Embed(Normalize(v).value)) == CanonicalText(v)
  {
    NormalizeEmbed(Normalize(v).value);
  }

  // ----- independence of mapping and set order

  /** What every Python mapping satisfies, at every depth: no string key occurs twice. */
  predicate Valid(v: Value)
    decreases v
  {
    match v
    case Model(dump) => Valid(dump)
    case EnumMember(of) => Valid(of)
    case Mapping(items) =>
      && (forall i, j :: 0 <= i < j < |items| && items[i].key.Some? ==> items[i].key != items[j].key)
      && forall x | x in items :: Valid(x.value)
    case SetOf(elements) => forall x | x in elements :: Valid(x)
    case Sequence(elements) => forall x | x in elements :: Valid(x)
    case _ => true
  }

  /** The same value up to the iteration order of mappings and sets, at every depth. */
  ghost predicate Same(p: Value, q: Value)
    decreases p
  {
    match p
    case Model(dump) => q.Model? && Same(dump, q.dump)
    case EnumMember(of) => q.EnumMember? && Same(of, q.of)
    case Mapping(items) =>
      q.Mapping? &&
      exists c: seq<Item> ::
        && multiset(c) == multiset(q.items) && |c| == |items|
        && forall i | 0 <= i < |items| :: items[i].key == c[i].key && Same(items[i].value, c[i].value)
    case SetOf(elements) =>
      q.SetOf? &&
      exists c: seq<Value> ::
        && multiset(c) == multiset(q.elements) && |c| == |elements|
        && forall i | 0 <= i < |elements| :: Same(elements[i], c[i])
    case Sequence(elements) =>
      && q.Sequence? && |q.elements| == |elements|
      && forall i | 0 <= i < |elements| :: Same(elements[i], q.elements[i])
    case _ => p == q
  }

  /** A member with its value already written. */
  datatype Slot = Slot(key: Str, text: string)

  predicate SlotLeq(a: Slot, b: Slot) {
    LexLeq(a.key, b.key)
  }

  function JoinTexts(ts: seq<string>): string
    requires ts != []
  {
    ts[0] + if |ts| == 1 then "]" else "," + JoinTexts(ts[1..])
  }

  function JoinSlots(ts: seq<Slot>): string
    requires ts != []
  {
    Quote(ts[0].key) + ":" + ts[0].text + if |ts| == 1 then "}" else "," + JoinSlots(ts[1..])
  }

  function CanonSlot(m: Member): Slot {
    Slot(m.key, Emit(m.value))
  }

  function DumpsSlot(m: Member): Slot {
    Slot(m.key, Dumps(m.value))
  }

  lemma {:induction false} EmitItemsJoins(items: seq<Json>)
    requires items != []
    ensures EmitItems(items) == JoinTexts(Image(items, Emit))
  {
    if |items| > 1 {
      EmitItemsJoins(items[1..]);
      assert Image(items, Emit)[1..] == Image(items[1..], Emit);
    }
  }

  lemma {:induction false} EmitMembersJoins(ms: seq<Member>)
    requires ms != []
    ensures EmitMembers(ms) == JoinSlots(Image(ms, CanonSlot))
  {
    if |ms| > 1 {
      EmitMembersJoins(ms[1..]);
      assert Image(ms, CanonSlot)[1..] == Image(ms[1..], CanonSlot);
    }
  }

  /** The text of an array depends only on the texts of its items. */
  lemma ArrayText(a: seq<Json>, b: seq<Json>)
    requires Image(a, Dumps) == Image(b, Dumps)
    ensures Dumps(JArr(a)) == Dumps(JArr(b))
  {
    assert |a| == |Image(a, Dumps)| == |b|;
    if a != [] {
      EmitItemsJoins(CanonAll(a));
      EmitItemsJoins(CanonAll(b));
      assert Image(CanonAll(a), Emit) == Image(a, Dumps);
      assert Image(CanonAll(b), Emit) == Image(b, Dumps);
    }
  }

  lemma ObjectSlots(ms: seq<Member>)
    ensures Image(Sort(CanonMembers(ms), KeyLeq), CanonSlot) == Sort(Image(ms, DumpsSlot), SlotLeq)
  {
    var cs := CanonMembers(ms);
    SortImage(cs, CanonSlot, KeyLeq, SlotLeq);
    assert Image(cs, CanonSlot) == Image(ms, DumpsSlot);
  }

  lemma SlotsDeterminedByKey(ms: seq<Member>)
    requires Distinct(Keys(ms))
    ensures forall x, y :: x in Image(ms, DumpsSlot) && y in Image(ms, DumpsSlot) && x.key == y.key ==> x == y
  {
    var slots := Image(ms, DumpsSlot);
    forall x, y | x in slots && y in slots && x.key == y.key
      ensures x == y
    {
      var i :| 0 <= i < |slots| && x == slots[i];
      var j :| 0 <= j < |slots| && y == slots[j];
      assert Keys(ms)[i] == x.key && Keys(ms)[j] == y.key;
    }
  }

  lemma ObjectJoins(ms: seq<Member>)
    requires ms != []
    ensures Sort(Image(ms, DumpsSlot), SlotLeq) != []
    ensures Dumps(JObj(ms)) == "{" + JoinSlots(Sort(Image(ms, DumpsSlot), SlotLeq))
  {
    ObjectSlots(ms);
    SortPermutes(CanonMembers(ms), KeyLeq);
    EmitMembersJoins(Sort(CanonMembers(ms), KeyLeq));
  }

  /** The text of an object depends only on its (key, text) pairs, in any order. */
  lemma ObjectText(a: seq<Member>, b: seq<Member>)
    requires multiset(Image(a, DumpsSlot)) == multiset(Image(b, DumpsSlot))
    requires Distinct(Keys(a))
    ensures Dumps(JObj(a)) == Dumps(JObj(b))
  {
    var sa, sb := Image(a, DumpsSlot), Image(b, DumpsSlot);
    assert |a| == |sa| == |multiset(sa)| == |multiset(sb)| == |b|;
    if a != [] {
      SlotOrder();
      SlotsDeterminedByKey(a);
      SortOfPermutation(sa, sb, SlotLeq);
      ObjectJoins(a);
      ObjectJoins(b);
    }
  }

  lemma SlotOrder()
    ensures TotalPreorder(SlotLeq)
    ensures forall x, y :: SlotLeq(x, y) && SlotLeq(y, x) ==> x.key == y.key
  {
    forall a: Slot, b: Slot
      ensures SlotLeq(a, b) || SlotLeq(b, a)
      ensures SlotLeq(a, b) && SlotLeq(b, a) ==> a.key == b.key
    {
      LexTotal(a.key, b.key);
    }
    forall a: Slot, b: Slot, c: Slot | SlotLeq(a, b) && SlotLeq(b, c)
      ensures SlotLeq(a, c)
    {
      LexTransitive(a.key, b.key, c.key);
    }
  }

  /** The text of a sorted set depends only on the texts of its elements, in any order. */
  lemma SetText(a: seq<Json>, b: seq<Json>)
    requires multiset(Image(a, Dumps)) == multiset(Image(b, Dumps))
    ensures Dumps(JArr(Sort(a, DumpsLeq))) == Dumps(JArr(Sort(b, DumpsLeq)))
  {
    TextOrder();
    SortImage(a, Dumps, DumpsLeq, TextLeq);
    SortImage(b, Dumps, DumpsLeq, TextLeq);
    SortOfPermutation(Image(a, Dumps), Image(b, Dumps), TextLeq);
    ArrayText(Sort(a, DumpsLeq), Sort(b, DumpsLeq));
  }

  // ----- elementwise view of the normalizer

  function Norm(v: Value): Json {
    var r := Normalize(v);
    if r.Ok? then r.value else JNull
  }

  function NormMember(x: Item): Member {
    Member(if x.key.Some? then x.key.value else [], Norm(x.value))
  }

  predicate Accepted(x: Item) {
    x.key.Some? && Normalize(x.value).Ok?
  }

  lemma {:induction false} NormalizeAllElementwise(vs: seq<Value>)
    ensures NormalizeAll(vs).Ok? <==> forall v :: v in vs ==> Normalize(v).Ok?
    ensures NormalizeAll(vs).Ok? ==> NormalizeAll(vs).value == Image(vs, Norm)
  {
    if vs != [] {
      NormalizeAllElementwise(vs[1..]);
      assert vs[0] in vs && forall v :: v in vs[1..] ==> v in vs;
      if NormalizeAll(vs).Ok? {
        forall v | v in vs
          ensures Normalize(v).Ok?
        {
          assert v == vs[0] || v in vs[1..];
        }
      }
    }
  }

  lemma {:induction false} NormalizeItemsElementwise(items: seq<Item>)
    ensures NormalizeItems(items).Ok? <==> forall x :: x in items ==> Accepted(x)
    ensures NormalizeItems(items).Ok? ==> NormalizeItems(items).value == Image(items, NormMember)
  {
    if items != [] {
      hide *;
      NormalizeItemsElementwise(items[1..]);
      NormalizeFirstItem(items);
      AcceptedFirst(items);
      ImageFirst(items, NormMember);
    }
  }

  lemma AcceptedFirst(items: seq<Item>)
    requires items != []
    ensures (forall x :: x in items ==> Accepted(x)) <==>
            Accepted(items[0]) && forall x :: x in items[1..] ==> Accepted(x)
  {
    hide *;
    assert items == [items[0]] + items[1..];
  }

  lemma ImageFirst<T, U>(s: seq<T>, f: T -> U)
    requires s != []
    ensures Image(s, f) == [f(s[0])] + Image(s[1..], f)
  {
  }

  lemma NormalizeFirstItem(items: seq<Item>)
    requires items != []
    ensures NormalizeItems(items).Ok? <==> Accepted(items[0]) && NormalizeItems(items[1..]).Ok?
    ensures NormalizeItems(items).Ok? ==>
              NormalizeItems(items).value == [NormMember(items[0])] + NormalizeItems(items[1..]).value
  {
    hide Normalize;
  }

  lemma InPermutation<T>(a: seq<T>, b: seq<T>)
    requires multiset(a) == multiset(b)
    ensures forall x :: x in a <==> x in b
  {
    assert forall x :: (x in a <==> x in multiset(a)) && (x in b <==> x in multiset(b));
  }

  /** Canonical text is independent of the insertion order of mappings and the iteration order of sets. */
  lemma {:induction false} SameCanonicalText(p: Value, q: Value)
    requires Valid(p) && Valid(q) && Same(p, q)
    ensures CanonicalText(p).Ok? <==> CanonicalText(q).Ok?
    ensures CanonicalText(p).Ok? ==> CanonicalText(p) == CanonicalText(q)
    decreases p, 2
  {
    match p
    case Model(dump) => SameCanonicalText(dump, q.dump);
    case EnumMember(of) => SameCanonicalText(of, q.of);
    case Sequence(elements) =>
      SameElements(p, elements, q.elements);
      NormalizeAllElementwise(elements);
      NormalizeAllElementwise(q.elements);
      if Normalize(p).Ok? {
        ArrayText(Image(elements, Norm), Image(q.elements, Norm));
      }
    case SetOf(elements) =>
      var c: seq<Value> :| multiset(c) == multiset(q.elements) && |c| == |elements| &&
                           forall i | 0 <= i < |elements| :: Same(elements[i], c[i]);
      InPermutation(c, q.elements);
      SameElements(p, elements, c);
      NormalizeAllElementwise(elements);
      NormalizeAllElementwise(q.elements);
      ImageOfPermutation(c, q.elements, Norm);
      ImageOfPermutation(Image(c, Norm), Image(q.elements, Norm), Dumps);
      if Normalize(p).Ok? {
        SetText(Image(elements, Norm), Image(q.elements, Norm));
      }
    case Mapping(items) => SameMapping(p, q);
    case _ =>
  }

  lemma {:induction false} SameElements(p: Value, a: seq<Value>, b: seq<Value>)
    requires Valid(p) && (p.SetOf? || p.Sequence?) && p.elements == a
    requires |a| == |b| && forall i | 0 <= i < |a| :: Same(a[i], b[i])
    requires forall x | x in b :: Valid(x)
    ensures (forall x :: x in a ==> Normalize(x).Ok?) <==> (forall x :: x in b ==> Normalize(x).Ok?)
    ensures (forall x :: x in a ==> Normalize(x).Ok?) ==>
              Image(Image(a, Norm), Dumps) == Image(Image(b, Norm), Dumps)
    decreases p, 0
  {
    forall i | 0 <= i < |a|
      ensures Normalize(a[i]).Ok? <==> Normalize(b[i]).Ok?
      ensures Normalize(a[i]).Ok? ==> Dumps(Norm(a[i])) == Dumps(Norm(b[i]))
    {
      assert a[i] in a && b[i] in b;
      SameCanonicalText(a[i], b[i]);
    }
    AllAlike(a, b, (x: Value) => Normalize(x).Ok?);
  }

  lemma AllAlike<T>(a: seq<T>, b: seq<T>, ok: T -> bool)
    requires |a| == |b| && forall i :: 0 <= i < |a| ==> ok(a[i]) == ok(b[i])
    ensures (forall x :: x in a ==> ok(x)) <==> (forall x :: x in b ==> ok(x))
    ensures (forall x :: x in a ==> ok(x)) ==> forall i :: 0 <= i < |a| ==> ok(a[i]) && ok(b[i])
  {
    assert forall i :: 0 <= i < |a| ==> a[i] in a && b[i] in b;
  }

  lemma {:induction false} SameItems(p: Value, a: seq<Item>, c: seq<Item>)
    requires Valid(p) && p.Mapping? && p.items == a && |c| == |a|
    requires forall i | 0 <= i < |a| :: a[i].key == c[i].key && Same(a[i].value, c[i].value)
    requires forall x | x in c :: Valid(x.value)
    ensures (forall x :: x in a ==> Accepted(x)) <==> (forall x :: x in c ==> Accepted(x))
    ensures (forall x :: x in a ==> Accepted(x)) ==>
              Image(Image(a, NormMember), DumpsSlot) == Image(Image(c, NormMember), DumpsSlot)
    decreases p, 0
  {
    forall i | 0 <= i < |a|
      ensures Accepted(a[i]) <==> Accepted(c[i])
      ensures Accepted(a[i]) ==> DumpsSlot(NormMember(a[i])) == DumpsSlot(NormMember(c[i]))
    {
      assert a[i] in a && c[i] in c;
      SameCanonicalText(a[i].value, c[i].value);
    }
    AllAlike(a, c, Accepted);
  }

  lemma NormKeysDistinct(items: seq<Item>)
    requires Valid(Mapping(items)) && forall x :: x in items ==> Accepted(x)
    ensures Distinct(Keys(Image(items, NormMember)))
  {
    var ms := Image(items, NormMember);
    forall i, j | 0 <= i < j < |items|
      ensures Keys(ms)[i] != Keys(ms)[j]
    {
      assert Accepted(items[i]) && Accepted(items[j]);
    }
  }

  lemma Reordering(p: Value, q: Value) returns (c: seq<Item>)
    requires p.Mapping? && Valid(q) && Same(p, q)
    ensures multiset(c) == multiset(q.items) && |c| == |p.items|
    ensures forall i | 0 <= i < |c| :: p.items[i].key == c[i].key && Same(p.items[i].value, c[i].value)
    ensures forall x | x in c :: Valid(x.value)
    ensures forall x :: x in c <==> x in q.items
  {
    c :| multiset(c) == multiset(q.items) && |c| == |p.items| &&
         forall i | 0 <= i < |c| :: p.items[i].key == c[i].key && Same(p.items[i].value, c[i].value);
    InPermutation(c, q.items);
  }

  lemma ValidMapping(p: Value)
    requires Valid(p) && p.Mapping?
    ensures Valid(Mapping(p.items))
  {
    assert p == Mapping(p.items);
  }

  lemma PermutedItemsText(a: seq<Item>, c: seq<Item>, b: seq<Item>)
    requires multiset(c) == multiset(b)
    requires Image(Image(a, NormMember), DumpsSlot) == Image(Image(c, NormMember), DumpsSlot)
    requires Valid(Mapping(a)) && forall x :: x in a ==> Accepted(x)
    ensures Dumps(JObj(Image(a, NormMember))) == Dumps(JObj(Image(b, NormMember)))
  {
    ImageOfPermutation(c, b, NormMember);
    ImageOfPermutation(Image(c, NormMember), Image(b, NormMember), DumpsSlot);
    NormKeysDistinct(a);
    ObjectText(Image(a, NormMember), Image(b, NormMember));
  }

  lemma {:induction false} SameMapping(p: Value, q: Value)
    requires Valid(p) && Valid(q) && Same(p, q) && p.Mapping?
    ensures CanonicalText(p).Ok? <==> CanonicalText(q).Ok?
    ensures CanonicalText(p).Ok? ==> CanonicalText(p) == CanonicalText(q)
    decreases p, 1
  {
    var a, b := p.items, q.items;
    var c := Reordering(p, q);
    SameItems(p, a, c);
    NormalizeItemsElementwise(a);
    NormalizeItemsElementwise(b);
    hide Same, Accepted, NormalizeItems, Dumps, Valid;
    if NormalizeItems(a).Ok? {
      ValidMapping(p);
      PermutedItemsText(a, c, b);
    }
  }
}
