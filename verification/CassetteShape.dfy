/** The shape of recorded responses, and the comparison of a fresh recording with the baseline. */
module CassetteShape {
  import opened Ordering
  import opened Schema

  datatype Value = Null | Bool | Number | Text | Undefined | List(items: seq<Value>) | Record(members: seq<Member>)
  datatype Member = Member(name: string, value: Value)

  /** The host's order of texts. */
  type Leq = (string, string) -> bool

  predicate SignatureLeq(leq: Leq, a: Schema, b: Schema) {
    leq(Signature(a), Signature(b))
  }

  predicate NameLeq(leq: Leq, a: Entry, b: Entry) {
    leq(a.name, b.name)
  }

  function BySignature(leq: Leq): (Schema, Schema) -> bool {
    (a, b) => SignatureLeq(leq, a, b)
  }

  function ByName(leq: Leq): (Entry, Entry) -> bool {
    (a, b) => NameLeq(leq, a, b)
  }

  // ---------- The schema of a value ----------

  predicate Seen(schemas: seq<Schema>, s: Schema) {
    exists i :: 0 <= i < |schemas| && Signature(schemas[i]) == Signature(s)
  }

  function SchemaOf(leq: Leq, v: Value): Schema
    decreases v
  {
    match v
    case Null => Plain(NullKind)
    case Bool => Plain(BoolKind)
    case Number => Plain(NumberKind)
    case Text => Plain(StringKind)
    case Undefined => Plain(UnknownKind)
    case List(items) => Array(SortBy(ElementSchemas(leq, items), BySignature(leq)))
    case Record(members) => Object(SortBy(EntriesOf(leq, members), ByName(leq)))
  }

  /** The schemas of the elements, each signature once, in order of first appearance. */
  function ElementSchemas(leq: Leq, items: seq<Value>): seq<Schema>
    decreases items
  {
    if items == [] then []
    else
      var before := ElementSchemas(leq, items[..|items| - 1]);
      var s := SchemaOf(leq, items[|items| - 1]);
      if Seen(before, s) then before else before + [s]
  }

  function EntriesOf(leq: Leq, members: seq<Member>): (r: seq<Entry>)
    ensures |r| == |members|
    decreases members
  {
    if members == [] then []
    else
      var last := members[|members| - 1];
      EntriesOf(leq, members[..|members| - 1]) + [Entry(last.name, SchemaOf(leq, last.value))]
  }

  // ---------- Shapes, without schemas ----------

  /** Same kind; lists with the same element shapes, however often and in whatever order; records with the same names and shapes. */
  ghost predicate SameShape(v: Value, w: Value)
    decreases v, w
  {
    match v
    case List(items) =>
      && w.List?
      && (forall i :: 0 <= i < |items| ==> Found(items[i], w.items))
      && (forall j :: 0 <= j < |w.items| ==> FoundBack(items, w.items[j]))
    case Record(members) =>
      && w.Record?
      && (forall i :: 0 <= i < |members| ==> Has(members[i], w.members))
      && (forall j :: 0 <= j < |w.members| ==> HasBack(members, w.members[j]))
    case _ => v == w
  }

  ghost predicate SameMember(m: Member, n: Member)
    decreases m, n
  {
    m.name == n.name && SameShape(m.value, n.value)
  }

  ghost predicate Found(v: Value, list: seq<Value>)
    decreases v, list
  {
    exists j :: 0 <= j < |list| && SameShape(v, list[j])
  }

  ghost predicate FoundBack(list: seq<Value>, w: Value)
    decreases list, w
  {
    exists i :: 0 <= i < |list| && SameShape(list[i], w)
  }

  ghost predicate Has(m: Member, list: seq<Member>)
    decreases m, list
  {
    exists j :: 0 <= j < |list| && SameMember(m, list[j])
  }

  ghost predicate HasBack(list: seq<Member>, n: Member)
    decreases list, n
  {
    exists i :: 0 <= i < |list| && SameMember(list[i], n)
  }

  /** Parsed JSON with names that a signature delimits. */
  ghost predicate Proper(v: Value) {
    match v
    case List(items) => forall i :: 0 <= i < |items| ==> Proper(items[i])
    case Record(members) =>
      && (forall i :: 0 <= i < |members| ==> Clear(members[i].name) && Proper(members[i].value))
      && (forall i, j :: 0 <= i < j < |members| ==> members[i].name != members[j].name)
    case _ => true
  }

  lemma {:induction false} EntryAt(leq: Leq, members: seq<Member>, i: nat)
    requires i < |members|
    ensures EntriesOf(leq, members)[i] == Entry(members[i].name, SchemaOf(leq, members[i].value))
  {
    if i < |members| - 1 {
      EntryAt(leq, members[..|members| - 1], i);
    }
  }

  lemma {:induction false} SchemaIsClear(leq: Leq, v: Value)
    requires Proper(v)
    ensures ClearNames(SchemaOf(leq, v))
    decreases v
  {
    match v
    case List(items) =>
      ElementsAreClear(leq, items);
      SortKeeps(ElementSchemas(leq, items), BySignature(leq));
    case Record(members) =>
      var entries := EntriesOf(leq, members);
      SortKeeps(entries, ByName(leq));
      forall e | e in entries ensures Clear(e.name) && ClearNames(e.schema) {
        var i :| 0 <= i < |entries| && entries[i] == e;
        EntryAt(leq, members, i);
        SchemaIsClear(leq, members[i].value);
      }
    case _ =>
  }

  lemma {:induction false} ElementsAreClear(leq: Leq, items: seq<Value>)
    requires forall i :: 0 <= i < |items| ==> Proper(items[i])
    ensures forall s :: s in ElementSchemas(leq, items) ==> ClearNames(s)
    decreases items
  {
    if items != [] {
      ElementsAreClear(leq, items[..|items| - 1]);
      SchemaIsClear(leq, items[|items| - 1]);
    }
  }

  lemma MembersAreSeen(schemas: seq<Schema>, s: Schema)
    ensures s in schemas ==> Seen(schemas, s)
  {
  }

  ghost predicate IsSchemaOf(leq: Leq, items: seq<Value>, s: Schema) {
    exists i :: 0 <= i < |items| && SchemaOf(leq, items[i]) == s
  }

  /** The element schemas are the schemas of the elements, each once. */
  lemma {:induction false} ElementSchemasAre(leq: Leq, items: seq<Value>)
    requires forall i :: 0 <= i < |items| ==> Proper(items[i])
    ensures Distinct(ElementSchemas(leq, items))
    ensures forall i :: 0 <= i < |items| ==> SchemaOf(leq, items[i]) in ElementSchemas(leq, items)
    ensures forall s :: s in ElementSchemas(leq, items) ==> IsSchemaOf(leq, items, s)
    decreases items
  {
    if items != [] {
      var n := |items| - 1;
      var before, last := ElementSchemas(leq, items[..n]), SchemaOf(leq, items[n]);
      ElementSchemasAre(leq, items[..n]);
      ElementsAreClear(leq, items[..n]);
      SchemaIsClear(leq, items[n]);
      if Seen(before, last) {
        var k :| 0 <= k < |before| && Signature(before[k]) == Signature(last);
        SignatureIsInjective(before[k], last);
      } else {
        MembersAreSeen(before, last);
        DistinctSnoc(before, last);
      }
      forall s | s in ElementSchemas(leq, items) ensures IsSchemaOf(leq, items, s) {
        if s in before {
          var i :| 0 <= i < n && SchemaOf(leq, items[..n][i]) == s;
          assert SchemaOf(leq, items[i]) == s;
        }
      }
    }
  }

  lemma LeqsArePreorders(leq: Leq)
    requires TotalOrder(leq)
    ensures TotalPreorder(BySignature(leq)) && TotalPreorder(ByName(leq))
  {
    assert forall a, b :: BySignature(leq)(a, b) == leq(Signature(a), Signature(b));
    assert forall a, b :: ByName(leq)(a, b) == leq(a.name, b.name);
  }

  /** The schemas of two values are equal exactly when the values have the same shape. */
  lemma {:induction false} ShapeDecides(leq: Leq, v: Value, w: Value)
    requires TotalOrder(leq) && Proper(v) && Proper(w)
    ensures SchemaOf(leq, v) == SchemaOf(leq, w) <==> SameShape(v, w)
    decreases v
  {
    if v.List? && w.List? {
      forall i, j | 0 <= i < |v.items| && 0 <= j < |w.items|
        ensures SchemaOf(leq, v.items[i]) == SchemaOf(leq, w.items[j]) <==> SameShape(v.items[i], w.items[j])
      {
        ShapeDecides(leq, v.items[i], w.items[j]);
      }
      ListsDecide(leq, v.items, w.items);
    } else if v.Record? && w.Record? {
      forall i, j | 0 <= i < |v.members| && 0 <= j < |w.members|
        ensures EntryOf(leq, v.members[i]) == EntryOf(leq, w.members[j]) <==> SameMember(v.members[i], w.members[j])
      {
        ShapeDecides(leq, v.members[i].value, w.members[j].value);
      }
      RecordsDecide(leq, v.members, w.members);
    }
  }

  ghost predicate ShapesAgree(leq: Leq, a: seq<Value>, b: seq<Value>) {
    forall i, j :: 0 <= i < |a| && 0 <= j < |b| ==> (SchemaOf(leq, a[i]) == SchemaOf(leq, b[j]) <==> SameShape(a[i], b[j]))
  }

  lemma ListsDecide(leq: Leq, a: seq<Value>, b: seq<Value>)
    requires TotalOrder(leq) && Proper(List(a)) && Proper(List(b)) && ShapesAgree(leq, a, b)
    ensures SchemaOf(leq, List(a)) == SchemaOf(leq, List(b)) <==> SameShape(List(a), List(b))
  {
    var s, t := ElementSchemas(leq, a), ElementSchemas(leq, b);
    ElementSchemasAre(leq, a);
    ElementSchemasAre(leq, b);
    ElementsAreClear(leq, a);
    LeqsArePreorders(leq);
    forall x, y | x in s && y in s && BySignature(leq)(x, y) && BySignature(leq)(y, x) ensures x == y {
      SignatureIsInjective(x, y);
    }
    SortDecides(s, t, BySignature(leq));
    if forall x :: x in s <==> x in t {
      SchemasGiveShape(leq, a, b, s, t);
    }
    if SameShape(List(a), List(b)) {
      ShapeGivesSchemas(leq, a, b, s, t);
    }
  }

  lemma SchemasGiveShape(leq: Leq, a: seq<Value>, b: seq<Value>, s: seq<Schema>, t: seq<Schema>)
    requires ShapesAgree(leq, a, b)
    requires forall x :: x in s <==> IsSchemaOf(leq, a, x)
    requires forall x :: x in t <==> IsSchemaOf(leq, b, x)
    requires forall x :: x in s <==> x in t
    ensures SameShape(List(a), List(b))
  {
    forall i | 0 <= i < |a| ensures Found(a[i], b) {
      assert IsSchemaOf(leq, b, SchemaOf(leq, a[i]));
      var j :| 0 <= j < |b| && SchemaOf(leq, b[j]) == SchemaOf(leq, a[i]);
      assert SameShape(a[i], b[j]);
    }
    forall j | 0 <= j < |b| ensures FoundBack(a, b[j]) {
      assert IsSchemaOf(leq, b, SchemaOf(leq, b[j]));
      assert IsSchemaOf(leq, a, SchemaOf(leq, b[j]));
      var i :| 0 <= i < |a| && SchemaOf(leq, a[i]) == SchemaOf(leq, b[j]);
      assert SameShape(a[i], b[j]);
    }
  }

  lemma ShapeGivesSchemas(leq: Leq, a: seq<Value>, b: seq<Value>, s: seq<Schema>, t: seq<Schema>)
    requires ShapesAgree(leq, a, b)
    requires forall x :: x in s <==> IsSchemaOf(leq, a, x)
    requires forall x :: x in t <==> IsSchemaOf(leq, b, x)
    requires SameShape(List(a), List(b))
    ensures forall x :: x in s <==> x in t
  {
    forall x ensures x in s <==> x in t {
      if x in s {
        var i :| 0 <= i < |a| && SchemaOf(leq, a[i]) == x;
        assert Found(a[i], b);
        var j :| 0 <= j < |b| && SameShape(a[i], b[j]);
        assert SchemaOf(leq, b[j]) == x;
        assert IsSchemaOf(leq, b, x);
      }
      if x in t {
        var j :| 0 <= j < |b| && SchemaOf(leq, b[j]) == x;
        assert FoundBack(a, b[j]);
        var i :| 0 <= i < |a| && SameShape(a[i], b[j]);
        assert SchemaOf(leq, a[i]) == x;
        assert IsSchemaOf(leq, a, x);
      }
    }
  }

  function EntryOf(leq: Leq, m: Member): Entry {
    Entry(m.name, SchemaOf(leq, m.value))
  }

  ghost predicate IsEntryOf(leq: Leq, members: seq<Member>, e: Entry) {
    exists i :: 0 <= i < |members| && EntryOf(leq, members[i]) == e
  }

  ghost predicate MembersAgree(leq: Leq, a: seq<Member>, b: seq<Member>) {
    forall i, j :: 0 <= i < |a| && 0 <= j < |b| ==> (EntryOf(leq, a[i]) == EntryOf(leq, b[j]) <==> SameMember(a[i], b[j]))
  }

  lemma EntriesAre(leq: Leq, members: seq<Member>)
    ensures forall e :: e in EntriesOf(leq, members) <==> IsEntryOf(leq, members, e)
    ensures Proper(Record(members)) ==>
              && Distinct(EntriesOf(leq, members))
              && forall x, y :: x in EntriesOf(leq, members) && y in EntriesOf(leq, members) && x.name == y.name ==> x == y
  {
    var entries := EntriesOf(leq, members);
    forall i | 0 <= i < |members| ensures entries[i] == EntryOf(leq, members[i]) {
      EntryAt(leq, members, i);
    }
    forall e ensures e in entries <==> IsEntryOf(leq, members, e) {
      if e in entries {
        var i :| 0 <= i < |entries| && entries[i] == e;
        assert EntryOf(leq, members[i]) == e;
      }
    }
    if Proper(Record(members)) {
      forall x, y | x in entries && y in entries && x.name == y.name ensures x == y {
        var i :| 0 <= i < |entries| && entries[i] == x;
        var j :| 0 <= j < |entries| && entries[j] == y;
        assert members[i].name == members[j].name;
      }
    }
  }

  lemma RecordsDecide(leq: Leq, a: seq<Member>, b: seq<Member>)
    requires TotalOrder(leq) && Proper(Record(a)) && Proper(Record(b)) && MembersAgree(leq, a, b)
    ensures SchemaOf(leq, Record(a)) == SchemaOf(leq, Record(b)) <==> SameShape(Record(a), Record(b))
  {
    var s, t := EntriesOf(leq, a), EntriesOf(leq, b);
    EntriesAre(leq, a);
    EntriesAre(leq, b);
    LeqsArePreorders(leq);
    assert forall x, y :: x in s && y in s && ByName(leq)(x, y) && ByName(leq)(y, x) ==> x.name == y.name;
    SortDecides(s, t, ByName(leq));
    if forall e :: e in s <==> e in t {
      EntriesGiveShape(leq, a, b, s, t);
    }
    if SameShape(Record(a), Record(b)) {
      ShapeGivesEntries(leq, a, b, s, t);
    }
  }

  lemma EntriesGiveShape(leq: Leq, a: seq<Member>, b: seq<Member>, s: seq<Entry>, t: seq<Entry>)
    requires MembersAgree(leq, a, b)
    requires forall e :: e in s <==> IsEntryOf(leq, a, e)
    requires forall e :: e in t <==> IsEntryOf(leq, b, e)
    requires forall e :: e in s <==> e in t
    ensures SameShape(Record(a), Record(b))
  {
    forall i | 0 <= i < |a| ensures Has(a[i], b) {
      assert IsEntryOf(leq, a, EntryOf(leq, a[i]));
      assert IsEntryOf(leq, b, EntryOf(leq, a[i]));
      var j :| 0 <= j < |b| && EntryOf(leq, b[j]) == EntryOf(leq, a[i]);
      assert SameMember(a[i], b[j]);
    }
    forall j | 0 <= j < |b| ensures HasBack(a, b[j]) {
      assert IsEntryOf(leq, b, EntryOf(leq, b[j]));
      assert IsEntryOf(leq, a, EntryOf(leq, b[j]));
      var i :| 0 <= i < |a| && EntryOf(leq, a[i]) == EntryOf(leq, b[j]);
      assert SameMember(a[i], b[j]);
    }
  }

  lemma ShapeGivesEntries(leq: Leq, a: seq<Member>, b: seq<Member>, s: seq<Entry>, t: seq<Entry>)
    requires MembersAgree(leq, a, b)
    requires forall e :: e in s <==> IsEntryOf(leq, a, e)
    requires forall e :: e in t <==> IsEntryOf(leq, b, e)
    requires SameShape(Record(a), Record(b))
    ensures forall e :: e in s <==> e in t
  {
    forall e ensures e in s <==> e in t {
      if e in s {
        var i :| 0 <= i < |a| && EntryOf(leq, a[i]) == e;
        assert Has(a[i], b);
        var j :| 0 <= j < |b| && SameMember(a[i], b[j]);
        assert EntryOf(leq, b[j]) == e;
        assert IsEntryOf(leq, b, e);
      }
      if e in t {
        var j :| 0 <= j < |b| && EntryOf(leq, b[j]) == e;
        assert HasBack(a, b[j]);
        var i :| 0 <= i < |a| && SameMember(a[i], b[j]);
        assert EntryOf(leq, a[i]) == e;
        assert IsEntryOf(leq, a, e);
      }
    }
  }

  lemma {:induction false} ShapeIsReflexive(v: Value)
    ensures SameShape(v, v)
    decreases v
  {
    if v.List? {
      forall i | 0 <= i < |v.items| ensures SameShape(v.items[i], v.items[i]) {
        ShapeIsReflexive(v.items[i]);
      }
      SameIndex(v.items, v.items);
    } else if v.Record? {
      forall i | 0 <= i < |v.members| ensures SameMember(v.members[i], v.members[i]) {
        ShapeIsReflexive(v.members[i].value);
      }
      SameFields(v.members, v.members);
    }
  }

  /** Lists with the same elements have the same shape. */
  lemma SameIndex(a: seq<Value>, b: seq<Value>)
    requires (forall x :: x in a <==> x in b) && forall i :: 0 <= i < |a| ==> SameShape(a[i], a[i])
    ensures SameShape(List(a), List(b))
  {
    forall i | 0 <= i < |a| ensures Found(a[i], b) {
      assert a[i] in a && a[i] in b;
      var j :| 0 <= j < |b| && b[j] == a[i];
      assert SameShape(a[i], b[j]);
    }
    forall j | 0 <= j < |b| ensures FoundBack(a, b[j]) {
      assert b[j] in b && b[j] in a;
      var i :| 0 <= i < |a| && a[i] == b[j];
      assert SameShape(a[i], b[j]);
    }
  }

  lemma SameFields(a: seq<Member>, b: seq<Member>)
    requires (forall x :: x in a <==> x in b) && forall i :: 0 <= i < |a| ==> SameMember(a[i], a[i])
    ensures SameShape(Record(a), Record(b))
  {
    forall i | 0 <= i < |a| ensures Has(a[i], b) {
      assert a[i] in a && a[i] in b;
      var j :| 0 <= j < |b| && b[j] == a[i];
      assert SameMember(a[i], b[j]);
    }
    forall j | 0 <= j < |b| ensures HasBack(a, b[j]) {
      assert b[j] in b && b[j] in a;
      var i :| 0 <= i < |a| && a[i] == b[j];
      assert SameMember(a[i], b[j]);
    }
  }

  /** Order and repetition of list elements, and order of members, do not show. */
  lemma OrderAndRepetitionDoNotShow(leq: Leq, a: seq<Value>, b: seq<Value>, m: seq<Member>, n: seq<Member>)
    requires TotalOrder(leq) && Proper(List(a)) && Proper(List(b)) && Proper(Record(m)) && Proper(Record(n))
    requires forall x :: x in a <==> x in b
    requires forall x :: x in m <==> x in n
    ensures SchemaOf(leq, List(a)) == SchemaOf(leq, List(b)) && SchemaOf(leq, Record(m)) == SchemaOf(leq, Record(n))
  {
    forall i | 0 <= i < |a| ensures SameShape(a[i], a[i]) {
      ShapeIsReflexive(a[i]);
    }
    forall i | 0 <= i < |m| ensures SameMember(m[i], m[i]) {
      ShapeIsReflexive(m[i].value);
    }
    SameIndex(a, b);
    SameFields(m, n);
    ShapeDecides(leq, List(a), List(b));
    ShapeDecides(leq, Record(m), Record(n));
  }
}
