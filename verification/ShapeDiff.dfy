/** Naming the differences between two recordings, and finding none exactly when there is none. */
module ShapeDiff {
  import opened Wrappers
  import opened Ordering
  import opened Schema
  import opened CassetteShape

  // ---------- The first difference of two schemas ----------

  datatype Drift =
    | KindChanged(path: seq<string>)
    | KeyRemoved(path: seq<string>, name: string)
    | KeyAdded(path: seq<string>, name: string)
    | ElementsChanged(path: seq<string>)

  function Names(entries: seq<Entry>): set<string> {
    set e <- entries :: e.name
  }

  /** The first entry whose name is neither in `names` nor inherited by every object. */
  function FirstUnknown(entries: seq<Entry>, names: set<string>, inherited: set<string>): (r: Option<string>)
    ensures r.None? <==> forall e :: e in entries ==> e.name in names || e.name in inherited
  {
    if entries == [] then None
    else if entries[0].name !in names && entries[0].name !in inherited then Some(entries[0].name)
    else FirstUnknown(entries[1..], names, inherited)
  }

  function Lookup(entries: seq<Entry>, name: string): (r: Schema)
    requires name in Names(entries)
    ensures Entry(name, r) in entries
  {
    if entries[0].name == name then entries[0].schema else Lookup(entries[1..], name)
  }

  /**
   `name in object` also finds what an object inherits, so a key named like an inherited property counts
   as present; reading it then gives a value of no schema kind.
   */
  function FirstDifference(inherited: set<string>, baseline: Schema, recent: Schema, path: seq<string>): Option<Drift>
    decreases baseline
  {
    match (baseline, recent)
    case (Plain(k), Plain(l)) => if k == l then None else Some(KindChanged(path))
    case (Array(_), Array(_)) => if Signature(baseline) == Signature(recent) then None else Some(ElementsChanged(path))
    case (Object(b), Object(f)) =>
      var removed := FirstUnknown(b, Names(f), inherited);
      if removed.Some? then Some(KeyRemoved(path, removed.value))
      else
        var added := FirstUnknown(f, Names(b), inherited);
        if added.Some? then Some(KeyAdded(path, added.value)) else FirstDeeper(inherited, b, f, path)
    case _ => Some(KindChanged(path))
  }

  function FirstDeeper(inherited: set<string>, b: seq<Entry>, f: seq<Entry>, path: seq<string>): Option<Drift>
    decreases b
  {
    if b == [] then None
    else
      var difference :=
        if b[0].name in Names(f) then FirstDifference(inherited, b[0].schema, Lookup(f, b[0].name), path + [b[0].name])
        else Some(KindChanged(path + [b[0].name]));
      if difference.Some? then difference else FirstDeeper(inherited, b[1..], f, path)
  }

  /** The first entry of a list that another object neither has nor inherits. */
  ghost predicate FirstMissing(entries: seq<Entry>, others: seq<Entry>, inherited: set<string>, name: string) {
    exists i :: 0 <= i < |entries| && entries[i].name == name && name !in inherited && Lacks(others, name)
      && forall j :: 0 <= j < i ==> entries[j].name in inherited || !Lacks(others, entries[j].name)
  }

  predicate Lacks(entries: seq<Entry>, name: string) {
    forall i :: 0 <= i < |entries| ==> entries[i].name != name
  }

  ghost predicate NothingMissing(entries: seq<Entry>, others: seq<Entry>, inherited: set<string>) {
    forall i :: 0 <= i < |entries| ==> entries[i].name in inherited || !Lacks(others, entries[i].name)
  }

  lemma {:induction false} FirstUnknownExactly(entries: seq<Entry>, others: seq<Entry>, inherited: set<string>)
    ensures var r := FirstUnknown(entries, Names(others), inherited);
            if r.Some? then FirstMissing(entries, others, inherited, r.value) else NothingMissing(entries, others, inherited)
  {
    NamesAre(others);
    hide FirstMissing, NothingMissing, Lacks, Names;
    if entries == [] {
      AtTheHead(entries, others, inherited);
    } else {
      AtTheHead(entries, others, inherited);
      FirstUnknownExactly(entries[1..], others, inherited);
    }
  }

  /** Whether something is missing is seen at the first entry, or behind it. */
  lemma AtTheHead(entries: seq<Entry>, others: seq<Entry>, inherited: set<string>)
    ensures entries == [] ==> NothingMissing(entries, others, inherited)
    ensures entries != [] && !(entries[0].name in inherited || !Lacks(others, entries[0].name)) ==>
              FirstMissing(entries, others, inherited, entries[0].name)
    ensures entries != [] && (entries[0].name in inherited || !Lacks(others, entries[0].name)) ==>
              && (NothingMissing(entries[1..], others, inherited) ==> NothingMissing(entries, others, inherited))
              && forall name :: FirstMissing(entries[1..], others, inherited, name) ==> FirstMissing(entries, others, inherited, name)
  {
    hide Lacks;
    if entries != [] && (entries[0].name in inherited || !Lacks(others, entries[0].name)) {
      var rest := entries[1..];
      assert forall j :: 1 <= j < |entries| ==> entries[j] == rest[j - 1];
      forall name | FirstMissing(rest, others, inherited, name) ensures FirstMissing(entries, others, inherited, name) {
        var i :| 0 <= i < |rest| && rest[i].name == name && name !in inherited && Lacks(others, name)
          && forall j :: 0 <= j < i ==> rest[j].name in inherited || !Lacks(others, rest[j].name);
        assert entries[i + 1].name == name;
      }
    }
  }

  lemma NamesAre(entries: seq<Entry>)
    ensures forall name :: name in Names(entries) <==> !Lacks(entries, name)
  {
    forall name ensures name in Names(entries) <==> !Lacks(entries, name) {
      if !Lacks(entries, name) {
        var i :| 0 <= i < |entries| && entries[i].name == name;
        assert entries[i] in entries;
      }
    }
  }

  // At this very path a removed key comes before an added one; anything else lies deeper.
  ghost predicate NamedInOrder(inherited: set<string>, was: seq<Entry>, isNow: seq<Entry>, path: seq<string>, drift: Drift) {
    || (path < drift.path && NothingMissing(was, isNow, inherited) && NothingMissing(isNow, was, inherited))
    || (drift.KeyRemoved? && drift.path == path && FirstMissing(was, isNow, inherited, drift.name))
    || (drift.KeyAdded? && drift.path == path && NothingMissing(was, isNow, inherited)
        && FirstMissing(isNow, was, inherited, drift.name))
  }

  /**
   Which difference of two objects is named: a removed key before an added one, the first of each in order,
   and only then what lies deeper.  Other values differ in kind, or arrays in their elements.
   */
  lemma DifferenceExactly(inherited: set<string>, baseline: Schema, recent: Schema, path: seq<string>)
    ensures baseline.Object? && recent.Object? && FirstDifference(inherited, baseline, recent, path).Some? ==>
              NamedInOrder(inherited, baseline.entries, recent.entries, path, FirstDifference(inherited, baseline, recent, path).value)
    ensures baseline.Object? && recent.Object? && !NothingMissing(baseline.entries, recent.entries, inherited) ==>
              exists name :: FirstDifference(inherited, baseline, recent, path) == Some(KeyRemoved(path, name))
    ensures baseline.Array? && recent.Array? ==>
              FirstDifference(inherited, baseline, recent, path) in [None, Some(ElementsChanged(path))]
    ensures !(baseline.Object? && recent.Object?) && !(baseline.Array? && recent.Array?) && baseline != recent ==>
              FirstDifference(inherited, baseline, recent, path) == Some(KindChanged(path))
  {
    if baseline.Object? && recent.Object? {
      FirstUnknownExactly(baseline.entries, recent.entries, inherited);
      FirstUnknownExactly(recent.entries, baseline.entries, inherited);
      DeeperIsBelow(inherited, baseline.entries, recent.entries, path);
    }
  }

  function Where(drift: Drift): seq<string> {
    drift.path
  }

  lemma {:induction false} DifferenceIsBelow(inherited: set<string>, baseline: Schema, recent: Schema, path: seq<string>)
    ensures FirstDifference(inherited, baseline, recent, path).Some? ==> path <= Where(FirstDifference(inherited, baseline, recent, path).value)
    decreases baseline, 1
  {
    if baseline.Object? && recent.Object? {
      DeeperIsBelow(inherited, baseline.entries, recent.entries, path);
    }
  }

  lemma {:induction false} DeeperIsBelow(inherited: set<string>, b: seq<Entry>, f: seq<Entry>, path: seq<string>)
    ensures FirstDeeper(inherited, b, f, path).Some? ==> path < Where(FirstDeeper(inherited, b, f, path).value)
    decreases b, 0
  {
    if b != [] {
      if b[0].name in Names(f) {
        DifferenceIsBelow(inherited, b[0].schema, Lookup(f, b[0].name), path + [b[0].name]);
      }
      DeeperIsBelow(inherited, b[1..], f, path);
    }
  }

  /** A schema as `SchemaOf` makes them: entries in name order, without inherited names. */
  ghost predicate Normal(leq: Leq, inherited: set<string>, s: Schema) {
    match s
    case Plain(_) => true
    case Array(_) => true
    case Object(entries) =>
      && Sorted(entries, ByName(leq))
      && (forall i, j :: 0 <= i < j < |entries| ==> entries[i].name != entries[j].name)
      && (forall i :: 0 <= i < |entries| ==> entries[i].name !in inherited && Normal(leq, inherited, entries[i].schema))
  }

  /** A value without names that every object inherits. */
  ghost predicate Ordinary(inherited: set<string>, v: Value) {
    match v
    case List(items) => true
    case Record(members) => forall i :: 0 <= i < |members| ==> members[i].name !in inherited && Ordinary(inherited, members[i].value)
    case _ => true
  }

  lemma {:induction false} SchemaIsNormal(leq: Leq, inherited: set<string>, v: Value)
    requires TotalOrder(leq) && Proper(v) && Ordinary(inherited, v)
    ensures Normal(leq, inherited, SchemaOf(leq, v)) && ClearNames(SchemaOf(leq, v))
    decreases v
  {
    SchemaIsClear(leq, v);
    if v.Record? {
      var entries := EntriesOf(leq, v.members);
      var sorted := SortBy(entries, ByName(leq));
      LeqsArePreorders(leq);
      EntriesAre(leq, v.members);
      SortKeeps(entries, ByName(leq));
      SortSorts(entries, ByName(leq));
      DistinctRearranged(entries, sorted);
      forall i | 0 <= i < |sorted| ensures sorted[i].name !in inherited && Normal(leq, inherited, sorted[i].schema) {
        assert sorted[i] in sorted && IsEntryOf(leq, v.members, sorted[i]);
        var k :| 0 <= k < |v.members| && EntryOf(leq, v.members[k]) == sorted[i];
        SchemaIsNormal(leq, inherited, v.members[k].value);
      }
      forall i, j | 0 <= i < j < |sorted| ensures sorted[i].name != sorted[j].name {
        assert sorted[i] in sorted && sorted[j] in sorted && sorted[i] != sorted[j];
      }
    }
  }

  lemma {:induction false} NoDifferenceWithin(inherited: set<string>, b: seq<Entry>, f: seq<Entry>, path: seq<string>)
    ensures FirstDeeper(inherited, b, f, path).None? <==>
              forall i :: 0 <= i < |b| ==>
                b[i].name in Names(f) && FirstDifference(inherited, b[i].schema, Lookup(f, b[i].name), path + [b[i].name]).None?
  {
    if b != [] {
      NoDifferenceWithin(inherited, b[1..], f, path);
      assert forall i :: 1 <= i < |b| ==> b[i] == b[1..][i - 1];
    }
  }

  /** No difference is named exactly when the schemas are equal. */
  lemma {:induction false} NoDifferenceExactly(leq: Leq, inherited: set<string>, baseline: Schema, recent: Schema, path: seq<string>)
    requires TotalOrder(leq) && ClearNames(baseline) && ClearNames(recent)
    requires Normal(leq, inherited, baseline) && Normal(leq, inherited, recent)
    ensures FirstDifference(inherited, baseline, recent, path).None? <==> baseline == recent
    decreases baseline
  {
    if baseline.Array? && recent.Array? && Signature(baseline) == Signature(recent) {
      SignatureIsInjective(baseline, recent);
    } else if baseline.Object? && recent.Object? {
      var b, f := baseline.entries, recent.entries;
      forall i | 0 <= i < |b| && b[i].name in Names(f)
        ensures FirstDifference(inherited, b[i].schema, Lookup(f, b[i].name), path + [b[i].name]).None? <==> b[i].schema == Lookup(f, b[i].name)
      {
        var found := Lookup(f, b[i].name);
        var j :| 0 <= j < |f| && f[j] == Entry(b[i].name, found);
        NoDifferenceExactly(leq, inherited, b[i].schema, found, path + [b[i].name]);
      }
      ObjectsDecide(leq, inherited, b, f, path);
    }
  }

  lemma ObjectsDecide(leq: Leq, inherited: set<string>, b: seq<Entry>, f: seq<Entry>, path: seq<string>)
    requires TotalOrder(leq) && Normal(leq, inherited, Object(b)) && Normal(leq, inherited, Object(f))
    requires forall i :: 0 <= i < |b| && b[i].name in Names(f) ==>
               (FirstDifference(inherited, b[i].schema, Lookup(f, b[i].name), path + [b[i].name]).None? <==> b[i].schema == Lookup(f, b[i].name))
    ensures FirstDifference(inherited, Object(b), Object(f), path).None? <==> Object(b) == Object(f)
  {
    hide Lookup, FirstDeeper;
    NoDifferenceWithin(inherited, b, f, path);
    OneEntryPerName(f, "");
    forall i | 0 <= i < |b| && b[i].name in Names(f) ensures b[i].schema == Lookup(f, b[i].name) <==> b[i] in f {
      assert Entry(b[i].name, Lookup(f, b[i].name)) in f;
    }
    EqualEntries(leq, inherited, b, f);
  }

  lemma OneEntryPerName(entries: seq<Entry>, name: string)
    requires forall i, j :: 0 <= i < j < |entries| ==> entries[i].name != entries[j].name
    ensures forall e, d :: e in entries && d in entries && e.name == d.name ==> e == d
  {
    forall e, d | e in entries && d in entries && e.name == d.name ensures e == d {
      var i :| 0 <= i < |entries| && entries[i] == e;
      var j :| 0 <= j < |entries| && entries[j] == d;
      assert i == j || i < j || j < i;
    }
  }

  lemma EqualEntries(leq: Leq, inherited: set<string>, b: seq<Entry>, f: seq<Entry>)
    requires TotalOrder(leq) && Normal(leq, inherited, Object(b)) && Normal(leq, inherited, Object(f))
    ensures b == f <==> (forall i :: 0 <= i < |b| ==> b[i] in f) && (forall e :: e in f ==> e.name in Names(b))
  {
    OneEntryPerName(b, "");
    OneEntryPerName(f, "");
    if (forall i :: 0 <= i < |b| ==> b[i] in f) && (forall e :: e in f ==> e.name in Names(b)) {
      forall e ensures e in b <==> e in f {
        if e in f {
          var d :| d in b && d.name == e.name;
          assert d in f;
        }
      }
      assert Distinct(b) && Distinct(f);
      DistinctSameSet(b, f);
      LeqsArePreorders(leq);
      assert forall x, y :: x in b && y in b && ByName(leq)(x, y) && ByName(leq)(y, x) ==> x.name == y.name;
      SortedIsUnique(b, f, ByName(leq));
    }
  }

  /**
   Nothing to report: the same kind, equal arrays, every key of the baseline still there and overlooked in
   turn, and every other key inherited by all objects.
   */
  predicate Overlooked(inherited: set<string>, baseline: Schema, recent: Schema) {
    match (baseline, recent)
    case (Plain(k), Plain(l)) => k == l
    case (Array(b), Array(f)) => b == f
    case (Object(b), Object(f)) =>
      && (forall i :: 0 <= i < |b| ==> b[i].name in Names(f) && Overlooked(inherited, b[i].schema, Lookup(f, b[i].name)))
      && (forall i :: 0 <= i < |f| ==> f[i].name in Names(b) || f[i].name in inherited)
    case _ => false
  }

  /** On any schemas with clear names, inherited ones included, no difference is named exactly when there is nothing to report. */
  lemma {:induction false} NoDifferenceIsOverlooked(inherited: set<string>, baseline: Schema, recent: Schema, path: seq<string>)
    requires ClearNames(baseline) && ClearNames(recent)
    ensures FirstDifference(inherited, baseline, recent, path).None? <==> Overlooked(inherited, baseline, recent)
    decreases baseline
  {
    if baseline.Array? && recent.Array? && Signature(baseline) == Signature(recent) {
      SignatureIsInjective(baseline, recent);
    } else if baseline.Object? && recent.Object? {
      var b, f := baseline.entries, recent.entries;
      forall i | 0 <= i < |b| && b[i].name in Names(f)
        ensures FirstDifference(inherited, b[i].schema, Lookup(f, b[i].name), path + [b[i].name]).None?
                <==> Overlooked(inherited, b[i].schema, Lookup(f, b[i].name))
      {
        var found := Lookup(f, b[i].name);
        var j :| 0 <= j < |f| && f[j] == Entry(b[i].name, found);
        NoDifferenceIsOverlooked(inherited, b[i].schema, found, path + [b[i].name]);
      }
      ObjectsAreOverlooked(inherited, b, f, path);
    }
  }

  lemma ObjectsAreOverlooked(inherited: set<string>, b: seq<Entry>, f: seq<Entry>, path: seq<string>)
    requires forall i :: 0 <= i < |b| && b[i].name in Names(f) ==>
               (FirstDifference(inherited, b[i].schema, Lookup(f, b[i].name), path + [b[i].name]).None?
                <==> Overlooked(inherited, b[i].schema, Lookup(f, b[i].name)))
    ensures FirstDifference(inherited, Object(b), Object(f), path).None? <==> Overlooked(inherited, Object(b), Object(f))
  {
    hide Lookup, FirstDeeper;
    NoDifferenceWithin(inherited, b, f, path);
    assert forall i :: 0 <= i < |b| ==> b[i] in b;
    assert forall i :: 0 <= i < |f| ==> f[i] in f;
  }

  /** A key that every object inherits is not seen when it is added. */
  lemma AddedInheritedKeyIsMissed(inherited: set<string>, entries: seq<Entry>, name: string, schema: Schema, path: seq<string>)
    requires name in inherited && FirstDifference(inherited, Object(entries), Object(entries), path).None?
    requires name !in Names(entries)
    ensures FirstDifference(inherited, Object(entries), Object(entries + [Entry(name, schema)]), path).None?
  {
    var f := entries + [Entry(name, schema)];
    assert forall e :: e in f <==> e in entries || e == Entry(name, schema);
    assert Names(entries) <= Names(f);
    NoDifferenceWithin(inherited, entries, entries, path);
    NoDifferenceWithin(inherited, entries, f, path);
    forall i | 0 <= i < |entries| ensures entries[i].name in Names(f) && Lookup(f, entries[i].name) == Lookup(entries, entries[i].name) {
      assert entries[i] in entries;
      LookupInFront(entries, [Entry(name, schema)], entries[i].name);
    }
  }

  lemma {:induction false} LookupInFront(entries: seq<Entry>, more: seq<Entry>, name: string)
    requires name in Names(entries)
    ensures name in Names(entries + more) && Lookup(entries + more, name) == Lookup(entries, name)
  {
    var e :| e in entries && e.name == name;
    assert e in entries + more;
    if entries[0].name != name {
      assert e in entries[1..];
      assert (entries + more)[1..] == entries[1..] + more;
      LookupInFront(entries[1..], more, name);
    }
  }

  // ---------- Recordings ----------

  datatype Interaction = Interaction(key: string, status: int, schema: Schema)

  datatype Finding =
    | Missing(key: string)
    | CountChanged(key: string, baseline: nat, live: nat)
    | Unexpected(key: string)
    | StatusChanged(key: string, was: int, now: int)
    | BodyDrift(key: string, drift: Drift)

  /** The interactions of one key, in order. */
  function Group(list: seq<Interaction>, key: string): seq<Interaction> {
    if list == [] then []
    else
      var before := Group(list[..|list| - 1], key);
      if list[|list| - 1].key == key then before + [list[|list| - 1]] else before
  }

  /** The keys, each once, in order of first appearance. */
  function KeysOf(list: seq<Interaction>): seq<string> {
    if list == [] then []
    else
      var before := KeysOf(list[..|list| - 1]);
      if list[|list| - 1].key in before then before else before + [list[|list| - 1].key]
  }

  predicate InteractionLeq(leq: Leq, x: Interaction, y: Interaction) {
    x.status < y.status || (x.status == y.status && leq(Signature(x.schema), Signature(y.schema)))
  }

  function ByStatus(leq: Leq): (Interaction, Interaction) -> bool {
    (x, y) => InteractionLeq(leq, x, y)
  }

  function CountFindings(keys: seq<string>, baseline: seq<Interaction>, live: seq<Interaction>): seq<Finding> {
    if keys == [] then []
    else
      var n := |keys| - 1;
      var was, now := |Group(baseline, keys[n])|, |Group(live, keys[n])|;
      CountFindings(keys[..n], baseline, live)
      + (if now == 0 then [Missing(keys[n])] else if now != was then [CountChanged(keys[n], was, now)] else [])
  }

  function NewFindings(keys: seq<string>, baseline: seq<Interaction>): seq<Finding> {
    if keys == [] then []
    else
      var n := |keys| - 1;
      NewFindings(keys[..n], baseline) + (if Group(baseline, keys[n]) == [] then [Unexpected(keys[n])] else [])
  }

  function OnePair(inherited: set<string>, key: string, was: Interaction, now: Interaction): seq<Finding> {
    var drift := FirstDifference(inherited, was.schema, now.schema, []);
    (if was.status != now.status then [StatusChanged(key, was.status, now.status)] else [])
    + (if drift.Some? then [BodyDrift(key, drift.value)] else [])
  }

  function Pairs(inherited: set<string>, key: string, was: seq<Interaction>, now: seq<Interaction>, count: nat): seq<Finding>
    requires count <= |was| && count <= |now|
  {
    if count == 0 then []
    else Pairs(inherited, key, was, now, count - 1) + OnePair(inherited, key, was[count - 1], now[count - 1])
  }

  function Min(a: nat, b: nat): nat {
    if a < b then a else b
  }

  function KeyPairs(leq: Leq, inherited: set<string>, key: string, baseline: seq<Interaction>, live: seq<Interaction>): seq<Finding> {
    var was, now := SortBy(Group(baseline, key), ByStatus(leq)), SortBy(Group(live, key), ByStatus(leq));
    Pairs(inherited, key, was, now, Min(|was|, |now|))
  }

  function PairFindings(leq: Leq, inherited: set<string>, keys: seq<string>, baseline: seq<Interaction>, live: seq<Interaction>): seq<Finding> {
    if keys == [] then []
    else
      var n := |keys| - 1;
      PairFindings(leq, inherited, keys[..n], baseline, live) + KeyPairs(leq, inherited, keys[n], baseline, live)
  }

  function Findings(leq: Leq, inherited: set<string>, baseline: seq<Interaction>, live: seq<Interaction>): seq<Finding> {
    var was, now := SortBy(KeysOf(baseline), leq), SortBy(KeysOf(live), leq);
    CountFindings(was, baseline, live) + NewFindings(now, baseline) + PairFindings(leq, inherited, was, baseline, live)
  }

  // ---------- The loops ----------

  method GroupByKey(list: seq<Interaction>) returns (groups: map<string, seq<Interaction>>, keys: seq<string>)
    ensures keys == KeysOf(list)
    ensures forall k :: k in groups <==> k in keys
    ensures forall k :: (if k in groups then groups[k] else []) == Group(list, k)
  {
    groups, keys := map[], [];
    for i := 0 to |list|
      invariant keys == KeysOf(list[..i])
      invariant forall k :: k in groups <==> k in keys
      invariant forall k :: (if k in groups then groups[k] else []) == Group(list[..i], k)
    {
      assert list[..i + 1][..i] == list[..i];
      var key := list[i].key;
      if key !in groups {
        keys := keys + [key];
      }
      groups := groups[key := (if key in groups then groups[key] else []) + [list[i]]];
    }
    assert list[..|list|] == list;
  }

  ghost predicate Groups(groups: map<string, seq<Interaction>>, list: seq<Interaction>) {
    forall k :: (if k in groups then groups[k] else []) == Group(list, k)
  }

  method CompareCounts(was: seq<string>, wasGroups: map<string, seq<Interaction>>, nowGroups: map<string, seq<Interaction>>,
                       ghost baseline: seq<Interaction>, ghost live: seq<Interaction>) returns (findings: seq<Finding>)
    requires Groups(wasGroups, baseline) && Groups(nowGroups, live)
    ensures findings == CountFindings(was, baseline, live)
  {
    hide Group;
    findings := [];
    for i := 0 to |was|
      invariant findings == CountFindings(was[..i], baseline, live)
    {
      assert was[..i + 1][..i] == was[..i];
      var count := if was[i] in wasGroups then |wasGroups[was[i]]| else 0;
      var liveCount := if was[i] in nowGroups then |nowGroups[was[i]]| else 0;
      if liveCount == 0 {
        findings := findings + [Missing(was[i])];
      } else if liveCount != count {
        findings := findings + [CountChanged(was[i], count, liveCount)];
      }
    }
    assert was[..|was|] == was;
  }

  method CompareNew(now: seq<string>, wasGroups: map<string, seq<Interaction>>, ghost baseline: seq<Interaction>) returns (findings: seq<Finding>)
    requires Groups(wasGroups, baseline)
    ensures findings == NewFindings(now, baseline)
  {
    hide Group;
    findings := [];
    for i := 0 to |now|
      invariant findings == NewFindings(now[..i], baseline)
    {
      assert now[..i + 1][..i] == now[..i];
      if now[i] !in wasGroups || wasGroups[now[i]] == [] {
        findings := findings + [Unexpected(now[i])];
      }
    }
    assert now[..|now|] == now;
  }

  method CompareBodies(leq: Leq, inherited: set<string>, was: seq<string>, wasGroups: map<string, seq<Interaction>>,
                       nowGroups: map<string, seq<Interaction>>, ghost baseline: seq<Interaction>, ghost live: seq<Interaction>)
    returns (findings: seq<Finding>)
    requires Groups(wasGroups, baseline) && Groups(nowGroups, live)
    ensures findings == PairFindings(leq, inherited, was, baseline, live)
  {
    hide Group, SortBy, Pairs;
    findings := [];
    for i := 0 to |was|
      invariant findings == PairFindings(leq, inherited, was[..i], baseline, live)
    {
      assert was[..i + 1][..i] == was[..i];
      var a := SortBy(if was[i] in wasGroups then wasGroups[was[i]] else [], ByStatus(leq));
      var b := SortBy(if was[i] in nowGroups then nowGroups[was[i]] else [], ByStatus(leq));
      var pairs := ComparePairs(inherited, was[i], a, b);
      findings := findings + pairs;
    }
    assert was[..|was|] == was;
  }

  method DiffCassetteShapes(leq: Leq, inherited: set<string>, baseline: seq<Interaction>, live: seq<Interaction>) returns (findings: seq<Finding>)
    ensures findings == Findings(leq, inherited, baseline, live)
  {
    hide Group, KeysOf, SortBy, CountFindings, NewFindings, PairFindings;
    var wasGroups, wasKeys := GroupByKey(baseline);
    var nowGroups, nowKeys := GroupByKey(live);
    var was, now := SortBy(wasKeys, leq), SortBy(nowKeys, leq);
    var counts := CompareCounts(was, wasGroups, nowGroups, baseline, live);
    var news := CompareNew(now, wasGroups, baseline);
    var bodies := CompareBodies(leq, inherited, was, wasGroups, nowGroups, baseline, live);
    findings := counts + news + bodies;
  }

  method ComparePairs(inherited: set<string>, key: string, was: seq<Interaction>, now: seq<Interaction>) returns (findings: seq<Finding>)
    ensures findings == Pairs(inherited, key, was, now, Min(|was|, |now|))
  {
    hide FirstDifference;
    findings := [];
    for i := 0 to Min(|was|, |now|)
      invariant findings == Pairs(inherited, key, was, now, i)
    {
      if was[i].status != now[i].status {
        findings := findings + [StatusChanged(key, was[i].status, now[i].status)];
      }
      var difference := FirstDifference(inherited, was[i].schema, now[i].schema, []);
      if difference.Some? {
        findings := findings + [BodyDrift(key, difference.value)];
      }
    }
  }

  // ---------- No findings ----------

  lemma {:induction false} GroupCounts(list: seq<Interaction>, key: string)
    ensures forall x :: multiset(Group(list, key))[x] == if x.key == key then multiset(list)[x] else 0
  {
    if list != [] {
      var n := |list| - 1;
      GroupCounts(list[..n], key);
      assert list == list[..n] + [list[n]];
    }
  }

  lemma {:induction false} KeysAre(list: seq<Interaction>)
    ensures forall k :: k in KeysOf(list) <==> Group(list, k) != []
  {
    if list != [] {
      KeysAre(list[..|list| - 1]);
    }
  }

  lemma EmptyJoin<T>(a: seq<T>, b: seq<T>)
    ensures a + b == [] <==> a == [] && b == []
  {
    assert |a + b| == |a| + |b|;
  }

  lemma {:induction false} NoCountFindings(keys: seq<string>, baseline: seq<Interaction>, live: seq<Interaction>)
    ensures CountFindings(keys, baseline, live) == [] <==>
              forall i :: 0 <= i < |keys| ==> 0 < |Group(live, keys[i])| == |Group(baseline, keys[i])|
  {
    hide Group;
    if keys != [] {
      NoCountFindings(keys[..|keys| - 1], baseline, live);
    }
  }

  lemma {:induction false} NoNewFindings(keys: seq<string>, baseline: seq<Interaction>)
    ensures NewFindings(keys, baseline) == [] <==> forall i :: 0 <= i < |keys| ==> Group(baseline, keys[i]) != []
  {
    hide Group, NewFindings;
    if keys == [] {
      NothingNew(baseline);
    } else {
      var n := |keys| - 1;
      NoNewFindings(keys[..n], baseline);
      NewFindingsStep(keys, baseline);
      assert forall i :: 0 <= i < n ==> keys[..n][i] == keys[i];
    }
  }

  lemma NothingNew(baseline: seq<Interaction>)
    ensures NewFindings([], baseline) == []
  {
  }

  lemma NewFindingsStep(keys: seq<string>, baseline: seq<Interaction>)
    requires keys != []
    ensures var n := |keys| - 1;
            NewFindings(keys, baseline) == [] <==> NewFindings(keys[..n], baseline) == [] && Group(baseline, keys[n]) != []
  {
    hide Group;
    var n := |keys| - 1;
    EmptyJoin(NewFindings(keys[..n], baseline), if Group(baseline, keys[n]) == [] then [Unexpected(keys[n])] else []);
  }

  lemma {:induction false} NoPairFindings(leq: Leq, inherited: set<string>, keys: seq<string>, baseline: seq<Interaction>, live: seq<Interaction>)
    ensures PairFindings(leq, inherited, keys, baseline, live) == [] <==>
              forall i :: 0 <= i < |keys| ==> KeyPairs(leq, inherited, keys[i], baseline, live) == []
  {
    hide KeyPairs, PairFindings;
    if keys == [] {
      NoKeysNoPairs(leq, inherited, baseline, live);
    } else {
      var n := |keys| - 1;
      NoPairFindings(leq, inherited, keys[..n], baseline, live);
      PairFindingsStep(leq, inherited, keys, baseline, live);
      assert forall i :: 0 <= i < n ==> keys[..n][i] == keys[i];
    }
  }

  lemma NoKeysNoPairs(leq: Leq, inherited: set<string>, baseline: seq<Interaction>, live: seq<Interaction>)
    ensures PairFindings(leq, inherited, [], baseline, live) == []
  {
  }

  lemma PairFindingsStep(leq: Leq, inherited: set<string>, keys: seq<string>, baseline: seq<Interaction>, live: seq<Interaction>)
    requires keys != []
    ensures var n := |keys| - 1;
            PairFindings(leq, inherited, keys, baseline, live) == []
            <==> PairFindings(leq, inherited, keys[..n], baseline, live) == [] && KeyPairs(leq, inherited, keys[n], baseline, live) == []
  {
    hide KeyPairs;
    var n := |keys| - 1;
    EmptyJoin(PairFindings(leq, inherited, keys[..n], baseline, live), KeyPairs(leq, inherited, keys[n], baseline, live));
  }

  lemma {:induction false} NoPairs(inherited: set<string>, key: string, was: seq<Interaction>, now: seq<Interaction>, count: nat)
    requires count <= |was| && count <= |now|
    ensures Pairs(inherited, key, was, now, count) == [] <==>
              forall i :: 0 <= i < count ==>
                was[i].status == now[i].status && FirstDifference(inherited, was[i].schema, now[i].schema, []).None?
  {
    if count > 0 {
      NoPairs(inherited, key, was, now, count - 1);
    }
  }

  /** Recordings whose schemas a signature tells apart. */
  ghost predicate Clean(leq: Leq, inherited: set<string>, list: seq<Interaction>) {
    forall x :: x in list ==> ClearNames(x.schema) && Normal(leq, inherited, x.schema)
  }

  lemma {:induction false} GroupMembers(list: seq<Interaction>, key: string)
    ensures forall x :: x in Group(list, key) <==> x in list && x.key == key
  {
    if list != [] {
      GroupMembers(list[..|list| - 1], key);
      assert list == list[..|list| - 1] + [list[|list| - 1]];
    }
  }

  /** Lists of equal length pair up without a finding exactly when they are equal. */
  lemma PairsDecide(leq: Leq, inherited: set<string>, key: string, was: seq<Interaction>, now: seq<Interaction>)
    requires TotalOrder(leq) && Clean(leq, inherited, was) && Clean(leq, inherited, now) && |was| == |now|
    requires forall x :: x in was || x in now ==> x.key == key
    ensures Pairs(inherited, key, was, now, |was|) == [] <==> was == now
  {
    hide FirstDifference, ClearNames, Normal, Pairs;
    NoPairs(inherited, key, was, now, |was|);
    forall i | 0 <= i < |was|
      ensures was[i].status == now[i].status && FirstDifference(inherited, was[i].schema, now[i].schema, []).None? <==> was[i] == now[i]
    {
      assert was[i] in was && now[i] in now;
      NoDifferenceExactly(leq, inherited, was[i].schema, now[i].schema, []);
    }
  }

  /** Groups of equal size pair up without a finding exactly when they hold the same interactions. */
  lemma GroupsDecide(leq: Leq, inherited: set<string>, key: string, baseline: seq<Interaction>, live: seq<Interaction>)
    requires TotalOrder(leq) && Clean(leq, inherited, baseline) && Clean(leq, inherited, live)
    requires |Group(baseline, key)| == |Group(live, key)|
    ensures KeyPairs(leq, inherited, key, baseline, live) == [] <==> multiset(Group(baseline, key)) == multiset(Group(live, key))
  {
    hide Group, SortBy, ClearNames, Normal, Pairs;
    var b, l := Group(baseline, key), Group(live, key);
    GroupMembers(baseline, key);
    GroupMembers(live, key);
    SortKeeps(b, ByStatus(leq));
    SortKeeps(l, ByStatus(leq));
    PairsDecide(leq, inherited, key, SortBy(b, ByStatus(leq)), SortBy(l, ByStatus(leq)));
    if multiset(b) == multiset(l) {
      SortedGroups(leq, inherited, key, b, l);
    }
  }

  lemma SortedGroups(leq: Leq, inherited: set<string>, key: string, b: seq<Interaction>, l: seq<Interaction>)
    requires TotalOrder(leq) && multiset(b) == multiset(l) && Clean(leq, inherited, b)
    requires forall x :: x in b ==> x.key == key
    ensures SortBy(b, ByStatus(leq)) == SortBy(l, ByStatus(leq))
  {
    hide SortBy, Signature, ClearNames, Normal;
    var order := ByStatus(leq);
    assert TotalPreorder(order) by {
      assert forall x, y :: order(x, y) == InteractionLeq(leq, x, y);
    }
    SortKeeps(b, order);
    SortKeeps(l, order);
    SortSorts(b, order);
    SortSorts(l, order);
    forall x, y | x in SortBy(b, order) && y in SortBy(b, order) && order(x, y) && order(y, x) ensures x == y {
      SignatureIsInjective(x.schema, y.schema);
    }
    SortedIsUnique(SortBy(b, order), SortBy(l, order), order);
  }

  /** The comparison is silent exactly when the two recordings hold the same interactions equally often. */
  lemma NoFindingsExactly(leq: Leq, inherited: set<string>, baseline: seq<Interaction>, live: seq<Interaction>)
    requires TotalOrder(leq) && Clean(leq, inherited, baseline) && Clean(leq, inherited, live)
    ensures Findings(leq, inherited, baseline, live) == [] <==> multiset(baseline) == multiset(live)
  {
    hide Group, Findings, KeyPairs;
    SilentMeans(leq, inherited, baseline, live);
    if forall k :: Agree(leq, inherited, k, baseline, live) {
      forall x ensures multiset(baseline)[x] == multiset(live)[x] {
        assert Agree(leq, inherited, x.key, baseline, live);
        GroupsDecide(leq, inherited, x.key, baseline, live);
        GroupCounts(baseline, x.key);
        GroupCounts(live, x.key);
      }
    }
    if multiset(baseline) == multiset(live) {
      forall k ensures Agree(leq, inherited, k, baseline, live) {
        GroupCounts(baseline, k);
        GroupCounts(live, k);
        assert multiset(Group(baseline, k)) == multiset(Group(live, k));
        SameMembers(Group(baseline, k), Group(live, k));
        GroupsDecide(leq, inherited, k, baseline, live);
      }
    }
  }

  ghost predicate Agree(leq: Leq, inherited: set<string>, key: string, baseline: seq<Interaction>, live: seq<Interaction>) {
    |Group(baseline, key)| == |Group(live, key)| && KeyPairs(leq, inherited, key, baseline, live) == []
  }

  lemma SilentMeans(leq: Leq, inherited: set<string>, baseline: seq<Interaction>, live: seq<Interaction>)
    ensures Findings(leq, inherited, baseline, live) == [] <==> forall k :: Agree(leq, inherited, k, baseline, live)
  {
    hide Group, KeysOf, SortBy, CountFindings, NewFindings, PairFindings, KeyPairs;
    var was, now := SortBy(KeysOf(baseline), leq), SortBy(KeysOf(live), leq);
    KeysAre(baseline);
    KeysAre(live);
    SortKeeps(KeysOf(baseline), leq);
    SortKeeps(KeysOf(live), leq);
    NoCountFindings(was, baseline, live);
    NoNewFindings(now, baseline);
    NoPairFindings(leq, inherited, was, baseline, live);
    forall k | k !in was && k !in now ensures Agree(leq, inherited, k, baseline, live) {
      NothingAgrees(leq, inherited, k, baseline, live);
    }
    if forall k :: Agree(leq, inherited, k, baseline, live) {
      forall i | 0 <= i < |was|
        ensures 0 < |Group(live, was[i])| == |Group(baseline, was[i])| && KeyPairs(leq, inherited, was[i], baseline, live) == []
      {
        assert was[i] in was && Agree(leq, inherited, was[i], baseline, live);
      }
      forall i | 0 <= i < |now| ensures Group(baseline, now[i]) != [] {
        assert now[i] in now && Agree(leq, inherited, now[i], baseline, live);
      }
    }
  }

  lemma NothingAgrees(leq: Leq, inherited: set<string>, key: string, baseline: seq<Interaction>, live: seq<Interaction>)
    requires Group(baseline, key) == [] && Group(live, key) == []
    ensures Agree(leq, inherited, key, baseline, live)
  {
  }

  // ---------- Inherited names ----------

  ghost predicate Told(list: seq<Interaction>) {
    forall x :: x in list ==> ClearNames(x.schema)
  }

  /** The interactions of a key, in order of status and signature, are equally many and differ in nothing to report. */
  predicate KeyOverlooked(leq: Leq, inherited: set<string>, key: string, baseline: seq<Interaction>, live: seq<Interaction>) {
    var was, now := SortBy(Group(baseline, key), ByStatus(leq)), SortBy(Group(live, key), ByStatus(leq));
    |was| == |now| && forall i :: 0 <= i < |was| ==> was[i].status == now[i].status && Overlooked(inherited, was[i].schema, now[i].schema)
  }

  /** On any recordings with clear names the comparison is silent exactly when it overlooks every key. */
  lemma SilentExactly(leq: Leq, inherited: set<string>, baseline: seq<Interaction>, live: seq<Interaction>)
    requires Told(baseline) && Told(live)
    ensures Findings(leq, inherited, baseline, live) == [] <==> forall k :: KeyOverlooked(leq, inherited, k, baseline, live)
  {
    hide Findings, Agree, KeyOverlooked;
    SilentMeans(leq, inherited, baseline, live);
    forall k ensures Agree(leq, inherited, k, baseline, live) <==> KeyOverlooked(leq, inherited, k, baseline, live) {
      AgreeIsOverlooked(leq, inherited, k, baseline, live);
    }
  }

  lemma AgreeIsOverlooked(leq: Leq, inherited: set<string>, key: string, baseline: seq<Interaction>, live: seq<Interaction>)
    requires Told(baseline) && Told(live)
    ensures Agree(leq, inherited, key, baseline, live) <==> KeyOverlooked(leq, inherited, key, baseline, live)
  {
    hide Group, SortBy, ClearNames, Pairs, FirstDifference, Overlooked;
    var was, now := SortBy(Group(baseline, key), ByStatus(leq)), SortBy(Group(live, key), ByStatus(leq));
    SortKeeps(Group(baseline, key), ByStatus(leq));
    SortKeeps(Group(live, key), ByStatus(leq));
    if |was| == |now| {
      NoPairs(inherited, key, was, now, |was|);
      GroupMembers(baseline, key);
      GroupMembers(live, key);
      forall i | 0 <= i < |was|
        ensures FirstDifference(inherited, was[i].schema, now[i].schema, []).None? <==> Overlooked(inherited, was[i].schema, now[i].schema)
      {
        assert was[i] in was && now[i] in now;
        NoDifferenceIsOverlooked(inherited, was[i].schema, now[i].schema, []);
      }
    }
  }
}
