/** The shape of a response body, and its one-line signature. */
module Schema {
  import opened Sequences
  import opened Text

  datatype Kind = NullKind | BoolKind | NumberKind | StringKind | UnknownKind

  datatype Schema = Plain(kind: Kind) | Array(items: seq<Schema>) | Object(entries: seq<Entry>)
  datatype Entry = Entry(name: string, schema: Schema)

  function KindName(k: Kind): string {
    match k
    case NullKind => "null"
    case BoolKind => "boolean"
    case NumberKind => "number"
    case StringKind => "string"
    case UnknownKind => "unknown"
  }

  function Signature(s: Schema): string {
    match s
    case Plain(k) => KindName(k)
    case Array(items) => "array<" + ItemsSignature(items) + ">"
    case Object(entries) => "{" + EntriesSignature(entries) + "}"
  }

  function ItemsSignature(items: seq<Schema>): string {
    if items == [] then ""
    else Signature(items[0]) + (if |items| == 1 then "" else "|" + ItemsSignature(items[1..]))
  }

  function EntriesSignature(entries: seq<Entry>): string {
    if entries == [] then ""
    else entries[0].name + ":" + Signature(entries[0].schema) + (if |entries| == 1 then "" else "," + EntriesSignature(entries[1..]))
  }

  // ---------- Names ----------

  /** Names that a signature delimits: no colon, and no closing brace in front. */
  predicate Clear(name: string) {
    ':' !in name && (name == "" || name[0] != '}')
  }

  predicate ClearNames(s: Schema) {
    match s
    case Plain(_) => true
    case Array(items) => forall i :: 0 <= i < |items| ==> ClearNames(items[i])
    case Object(entries) => forall i :: 0 <= i < |entries| ==> Clear(entries[i].name) && ClearNames(entries[i].schema)
  }

  /** What may follow a signature inside another one. */
  predicate Stops(rest: string) {
    rest == "" || rest[0] in [',', '}', '|', '>']
  }

  // ---------- The signature in front of a text ----------

  function Put(s: Schema, rest: string): string {
    match s
    case Plain(k) => KindName(k) + rest
    case Array(items) => "array<" + PutItems(items, rest)
    case Object(entries) => "{" + PutEntries(entries, rest)
  }

  function PutItems(items: seq<Schema>, rest: string): string {
    if items == [] then ">" + rest
    else Put(items[0], if |items| == 1 then ">" + rest else "|" + PutItems(items[1..], rest))
  }

  function PutEntries(entries: seq<Entry>, rest: string): string {
    if entries == [] then "}" + rest
    else
      entries[0].name + [':']
      + Put(entries[0].schema, if |entries| == 1 then "}" + rest else "," + PutEntries(entries[1..], rest))
  }

  lemma {:induction false} PutIsInFront(s: Schema, rest: string)
    ensures Put(s, rest) == Signature(s) + rest
    decreases s
  {
    match s
    case Plain(k) =>
    case Array(items) =>
      PutItemsIsInFront(items, rest);
      Regroup("array<", ItemsSignature(items), ">", rest);
    case Object(entries) =>
      PutEntriesIsInFront(entries, rest);
      Regroup("{", EntriesSignature(entries), "}", rest);
  }

  lemma {:induction false} PutItemsIsInFront(items: seq<Schema>, rest: string)
    ensures PutItems(items, rest) == ItemsSignature(items) + (">" + rest)
    decreases items
  {
    if |items| == 1 {
      PutIsInFront(items[0], ">" + rest);
    } else if items != [] {
      var more := ItemsSignature(items[1..]);
      PutItemsIsInFront(items[1..], rest);
      PutIsInFront(items[0], "|" + PutItems(items[1..], rest));
      Regroup(Signature(items[0]), "|", more, ">" + rest);
    }
  }

  lemma {:induction false} PutEntriesIsInFront(entries: seq<Entry>, rest: string)
    ensures PutEntries(entries, rest) == EntriesSignature(entries) + ("}" + rest)
    decreases entries
  {
    if entries != [] {
      var name, first := entries[0].name, Signature(entries[0].schema);
      if |entries| == 1 {
        PutIsInFront(entries[0].schema, "}" + rest);
        Regroup(name, ":", first, "}" + rest);
      } else {
        var more := EntriesSignature(entries[1..]);
        PutEntriesIsInFront(entries[1..], rest);
        PutIsInFront(entries[0].schema, "," + PutEntries(entries[1..], rest));
        Regroup(first, ",", more, "}" + rest);
        Regroup(name, ":", first, "," + (more + ("}" + rest)));
        Regroup(name + ":", first, "," + more, "}" + rest);
        Regroup(name + ":" + first, ",", more, "}" + rest);
      }
    }
  }

  // ---------- It can be read back ----------

  lemma PutStart(s: Schema, rest: string)
    ensures Put(s, rest) != ""
    ensures s.Object? ==> Put(s, rest)[0] == '{'
    ensures s.Array? ==> Put(s, rest)[0] == 'a'
    ensures s.Plain? ==> Put(s, rest)[0] in ['n', 'b', 's', 'u']
  {
  }

  lemma KindsDiffer(j: Kind, k: Kind, t: string, u: string)
    requires Stops(t) && Stops(u) && KindName(j) + t == KindName(k) + u
    ensures j == k && t == u
  {
    var left, right := KindName(j) + t, KindName(k) + u;
    assert left[0] == KindName(j)[0] && right[0] == KindName(k)[0];
    assert left[2] == KindName(j)[2] && right[2] == KindName(k)[2];
    assert t == left[|KindName(j)|..] && u == right[|KindName(k)|..];
  }

  lemma Cancel(a: string, b: string, c: string)
    requires a + b == a + c
    ensures b == c
  {
    assert b == (a + b)[|a|..] && c == (a + c)[|a|..];
  }

  /** Signatures decode from the left: equal texts begin with the same schema. */
  lemma {:induction false} PutIsInjective(r: Schema, s: Schema, t: string, u: string)
    requires ClearNames(r) && ClearNames(s) && Stops(t) && Stops(u) && Put(r, t) == Put(s, u)
    ensures r == s && t == u
    decreases r
  {
    PutStart(r, t);
    PutStart(s, u);
    match r
    case Plain(k) =>
      KindsDiffer(k, s.kind, t, u);
    case Array(items) =>
      Cancel("array<", PutItems(items, t), PutItems(s.items, u));
      ItemsAreInjective(items, s.items, t, u);
    case Object(entries) =>
      Cancel("{", PutEntries(entries, t), PutEntries(s.entries, u));
      EntriesAreInjective(entries, s.entries, t, u);
  }

  lemma ItemsStart(items: seq<Schema>, rest: string)
    ensures PutItems(items, rest) != "" && (PutItems(items, rest)[0] == '>' <==> items == [])
  {
    if items != [] {
      PutStart(items[0], if |items| == 1 then ">" + rest else "|" + PutItems(items[1..], rest));
    }
  }

  lemma {:induction false} ItemsAreInjective(a: seq<Schema>, b: seq<Schema>, t: string, u: string)
    requires forall i :: 0 <= i < |a| ==> ClearNames(a[i])
    requires forall i :: 0 <= i < |b| ==> ClearNames(b[i])
    requires PutItems(a, t) == PutItems(b, u)
    ensures a == b && t == u
    decreases a
  {
    ItemsStart(a, t);
    ItemsStart(b, u);
    if a == [] {
      Cancel(">", t, u);
    } else {
      var t' := if |a| == 1 then ">" + t else "|" + PutItems(a[1..], t);
      var u' := if |b| == 1 then ">" + u else "|" + PutItems(b[1..], u);
      PutIsInjective(a[0], b[0], t', u');
      assert t'[0] == u'[0];
      if |a| == 1 {
        Cancel(">", t, u);
      } else {
        Cancel("|", PutItems(a[1..], t), PutItems(b[1..], u));
        ItemsAreInjective(a[1..], b[1..], t, u);
      }
      assert a == [a[0]] + a[1..] && b == [b[0]] + b[1..];
    }
  }

  lemma EntriesStart(entries: seq<Entry>, rest: string)
    requires entries != [] ==> Clear(entries[0].name)
    ensures PutEntries(entries, rest) != "" && (PutEntries(entries, rest)[0] == '}' <==> entries == [])
  {
    if entries != [] {
      assert PutEntries(entries, rest)[0] == (entries[0].name + [':'])[0];
    }
  }

  lemma {:induction false} EntriesAreInjective(a: seq<Entry>, b: seq<Entry>, t: string, u: string)
    requires forall i :: 0 <= i < |a| ==> Clear(a[i].name) && ClearNames(a[i].schema)
    requires forall i :: 0 <= i < |b| ==> Clear(b[i].name) && ClearNames(b[i].schema)
    requires PutEntries(a, t) == PutEntries(b, u)
    ensures a == b && t == u
    decreases a
  {
    EntriesStart(a, t);
    EntriesStart(b, u);
    if a == [] {
      Cancel("}", t, u);
    } else {
      var t' := if |a| == 1 then "}" + t else "," + PutEntries(a[1..], t);
      var u' := if |b| == 1 then "}" + u else "," + PutEntries(b[1..], u);
      SplitAtFirst(a[0].name, ':', Put(a[0].schema, t'), b[0].name, Put(b[0].schema, u'));
      PutIsInjective(a[0].schema, b[0].schema, t', u');
      assert t'[0] == u'[0];
      if |a| == 1 {
        Cancel("}", t, u);
      } else {
        Cancel(",", PutEntries(a[1..], t), PutEntries(b[1..], u));
        EntriesAreInjective(a[1..], b[1..], t, u);
      }
      assert a == [a[0]] + a[1..] && b == [b[0]] + b[1..];
    }
  }

  /** With clear names, equal signatures are those of equal schemas. */
  lemma SignatureIsInjective(r: Schema, s: Schema)
    requires ClearNames(r) && ClearNames(s) && Signature(r) == Signature(s)
    ensures r == s
  {
    PutIsInFront(r, "");
    PutIsInFront(s, "");
    PutIsInjective(r, s, "", "");
  }

  /** A colon in a name, or a brace in front of one, makes different schemas look the same. */
  lemma NamesThatCollide()
    ensures Signature(Object([Entry("a:null,b", Plain(NullKind))])) == Signature(Object([Entry("a", Plain(NullKind)), Entry("b", Plain(NullKind))]))
    ensures Signature(Array([Object([Entry("}|{", Plain(NullKind))])])) == Signature(Array([Object([]), Object([Entry("", Plain(NullKind))])]))
  {
    hide *;
    ColonsCollide();
    BracesCollide();
  }

  lemma ColonsCollide()
    ensures Signature(Object([Entry("a:null,b", Plain(NullKind))])) == Signature(Object([Entry("a", Plain(NullKind)), Entry("b", Plain(NullKind))]))
  {
    var one, two := [Entry("a:null,b", Plain(NullKind))], [Entry("a", Plain(NullKind)), Entry("b", Plain(NullKind))];
    assert two[1..] == [Entry("b", Plain(NullKind))];
    assert EntriesSignature(one) == "a:null,b" + ":" + "null";
    assert EntriesSignature(two[1..]) == "b" + ":" + "null";
    assert EntriesSignature(two) == "a" + ":" + "null" + ("," + ("b" + ":" + "null"));
  }

  lemma BracesCollide()
    ensures Signature(Array([Object([Entry("}|{", Plain(NullKind))])])) == Signature(Array([Object([]), Object([Entry("", Plain(NullKind))])]))
  {
    var one, two := [Object([Entry("}|{", Plain(NullKind))])], [Object([]), Object([Entry("", Plain(NullKind))])];
    assert two[1..] == [Object([Entry("", Plain(NullKind))])];
    assert Signature(one[0]) == "{" + ("}|{" + ":" + "null") + "}";
    assert Signature(two[1]) == "{" + ("" + ":" + "null") + "}";
    assert ItemsSignature(one) == "{" + ("}|{" + ":" + "null") + "}";
    assert ItemsSignature(two) == "{" + "}" + ("|" + ("{" + ("" + ":" + "null") + "}"));
  }
}
