/** Numbering the placeholders that stand for live ids in a recording. */
module Placeholders {
  import opened Wrappers
  import opened Ordering
  import opened Text

  datatype Category = Workspace | Specification | Collection | Team | User | Run | Uid

  const ORDER := [Workspace, Specification, Collection, Team, User, Run, Uid]

  function Base(c: Category): int {
    match c
    case Workspace => -3000
    case Specification => -4000
    case Collection => -5000
    case Team => -1000
    case User => -2000
    case Run => -6000
    case Uid => -7000
  }

  function Name(c: Category): string {
    match c
    case Workspace => "workspace"
    case Specification => "specification"
    case Collection => "collection"
    case Team => "team"
    case User => "user"
    case Run => "run"
    case Uid => "uid"
  }

  predicate IsNumericPlaceholder(value: int, c: Category) {
    (c.Team? && value in {1001, 1002}) || (c.User? && value in {2001, 2002}) || Base(c) - 1000 < value <= Base(c) - 1
  }

  function NumericPlaceholder(c: Category, index: nat): int {
    Base(c) - index - 1
  }

  // ---------- Numbers ----------

  /** With at most 1000 ids in each category all numbers differ; one more, and two categories meet. */
  lemma NumbersDifferExactly(count: nat)
    ensures (forall c, d, i: nat, j: nat :: i < count && j < count && NumericPlaceholder(c, i) == NumericPlaceholder(d, j) ==> c == d && i == j)
            <==> count <= 1000
  {
    if count > 1000 {
      assert NumericPlaceholder(Workspace, 1000) == NumericPlaceholder(Specification, 0);
    }
  }

  /** A number is known again by its own category, and only by it, exactly for the first 999 ids. */
  lemma NumberIsKnownExactly(c: Category, index: nat)
    ensures IsNumericPlaceholder(NumericPlaceholder(c, index), c) <==> index < 999
    ensures index < 1000 ==> forall d :: d != c ==> !IsNumericPlaceholder(NumericPlaceholder(c, index), d)
    ensures c == Workspace && index == 1000 ==> IsNumericPlaceholder(NumericPlaceholder(c, index), Specification)
  {
  }

  // ---------- Texts ----------

  function Digit(n: nat): char
    requires n < 10
  {
    '0' + n as char
  }

  function Decimal(n: nat): (r: string)
    ensures r != "" && forall i :: 0 <= i < |r| ==> '0' <= r[i] <= '9'
  {
    if n < 10 then [Digit(n)] else Decimal(n / 10) + [Digit(n % 10)]
  }

  lemma {:induction false} DecimalIsInjective(m: nat, n: nat)
    requires Decimal(m) == Decimal(n)
    ensures m == n
  {
    var s, t := Decimal(m), Decimal(n);
    assert s[|s| - 1] == t[|t| - 1];
    if m >= 10 && n >= 10 {
      assert s[..|s| - 1] == Decimal(m / 10) && t[..|t| - 1] == Decimal(n / 10);
      DecimalIsInjective(m / 10, n / 10);
    }
  }

  function Alias(c: Category, number: nat): string {
    "cassette-" + (Name(c) + ['-'] + Decimal(number))
  }

  /** The pattern of a category's text placeholders. */
  predicate MatchesAlias(text: string, c: Category) {
    var front := "cassette-" + (Name(c) + ['-']);
    front < text && forall i :: |front| <= i < |text| ==> '0' <= text[i] <= '9'
  }

  lemma NamesDiffer(c: Category, d: Category)
    requires Name(c) == Name(d)
    ensures c == d
  {
    var s, t := Name(c), Name(d);
    assert s[0] == t[0] && s[1] == t[1] && |s| == |t|;
  }

  lemma NameHasNoDash(c: Category)
    ensures '-' !in Name(c)
  {
  }

  lemma CancelFront(front: string, s: string, t: string)
    requires front + s == front + t
    ensures s == t
  {
    assert s == (front + s)[|front|..] && t == (front + t)[|front|..];
  }

  /** Aliases of different categories or numbers differ. */
  lemma AliasIsInjective(c: Category, d: Category, m: nat, n: nat)
    requires Alias(c, m) == Alias(d, n)
    ensures c == d && m == n
  {
    CancelFront("cassette-", Name(c) + ['-'] + Decimal(m), Name(d) + ['-'] + Decimal(n));
    NameHasNoDash(c);
    NameHasNoDash(d);
    SplitAtFirst(Name(c), '-', Decimal(m), Name(d), Decimal(n));
    NamesDiffer(c, d);
    DecimalIsInjective(m, n);
  }

  lemma OwnAlias(c: Category, number: nat)
    ensures MatchesAlias(Alias(c, number), c)
  {
    hide Name, Decimal;
    var front, digits := "cassette-" + (Name(c) + ['-']), Decimal(number);
    var text := Alias(c, number);
    assert text == front + digits;
    assert text[..|front|] == front;
    assert forall i :: |front| <= i < |text| ==> text[i] == digits[i - |front|];
  }

  lemma OthersAlias(c: Category, d: Category, number: nat)
    requires MatchesAlias(Alias(c, number), d)
    ensures c == d
  {
    hide Name, Decimal;
    var front, text := "cassette-" + (Name(d) + ['-']), Alias(c, number);
    var digits := text[|front|..];
    assert text == "cassette-" + (Name(d) + ['-'] + digits);
    CancelFront("cassette-", Name(c) + ['-'] + Decimal(number), Name(d) + ['-'] + digits);
    NameHasNoDash(c);
    NameHasNoDash(d);
    SplitAtFirst(Name(c), '-', Decimal(number), Name(d), digits);
    NamesDiffer(c, d);
  }

  /** An alias is known again by its own category and by no other. */
  lemma AliasIsKnownExactly(c: Category, d: Category, number: nat)
    ensures MatchesAlias(Alias(c, number), d) <==> c == d
  {
    OwnAlias(c, number);
    if MatchesAlias(Alias(c, number), d) {
      OthersAlias(c, d, number);
    }
  }

  // ---------- Collecting ----------

  /** The ids of one category, each once. */
  datatype Candidate = Candidate(numeric: bool, values: seq<string>)

  type Candidates = Category -> Candidate

  datatype Replacement = Number(value: int) | Text(text: string)

  predicate IsInteger(text: string) {
    if text != "" && text[0] == '-' then OnlyDigits(text[1..]) else OnlyDigits(text)
  }

  predicate OnlyDigits(text: string) {
    text != "" && forall i :: 0 <= i < |text| ==> '0' <= text[i] <= '9'
  }

  ghost predicate DigitsFrom(text: string, first: nat) {
    first < |text| && forall i :: first <= i < |text| ==> '0' <= text[i] <= '9'
  }

  /** An integer is at least one digit, behind a minus or not. */
  lemma IsIntegerExactly(text: string)
    ensures IsInteger(text) <==> DigitsFrom(text, if text != "" && text[0] == '-' then 1 else 0)
  {
    if text != "" && text[0] == '-' {
      var digits := text[1..];
      assert forall i :: 1 <= i < |text| ==> text[i] == digits[i - 1];
      assert forall i :: 0 <= i < |digits| ==> digits[i] == text[i + 1];
    }
  }

  /** A collection id stands for its model when it has one, and for itself otherwise. */
  datatype GroupKey = Model(identity: string) | Exact(raw: string)

  function KeyOf(identity: string -> Option<string>, raw: string): GroupKey {
    match identity(raw)
    case Some(id) => Model(id)
    case None => Exact(raw)
  }

  /** The groups in order of first appearance. */
  function Groups(identity: string -> Option<string>, values: seq<string>): seq<GroupKey> {
    if values == [] then []
    else
      var before := Groups(identity, values[..|values| - 1]);
      var key := KeyOf(identity, values[|values| - 1]);
      if key in before then before else before + [key]
  }

  function Position<T(==)>(list: seq<T>, x: T): (r: nat)
    requires x in list
    ensures r < |list| && list[r] == x && forall i :: 0 <= i < r ==> list[i] != x
  {
    if list[0] == x then 0 else 1 + Position(list[1..], x)
  }

  lemma {:induction false} GroupsAre(identity: string -> Option<string>, values: seq<string>)
    ensures Distinct(Groups(identity, values))
    ensures forall raw :: raw in values ==> KeyOf(identity, raw) in Groups(identity, values)
  {
    if values != [] {
      var n := |values| - 1;
      GroupsAre(identity, values[..n]);
      assert values == values[..n] + [values[n]];
      if KeyOf(identity, values[n]) !in Groups(identity, values[..n]) {
        DistinctSnoc(Groups(identity, values[..n]), KeyOf(identity, values[n]));
      }
    }
  }

  /** The replacement of an id in its category. */
  function ReplacementFor(candidates: Candidates, identity: string -> Option<string>, c: Category, raw: string): Replacement
    requires raw in candidates(c).values
  {
    var values := candidates(c).values;
    if c.Collection? then
      GroupsAre(identity, values);
      Text(Alias(c, Position(Groups(identity, values), KeyOf(identity, raw)) + 1))
    else if candidates(c).numeric && IsInteger(raw) then Number(NumericPlaceholder(c, Position(values, raw)))
    else Text(Alias(c, Position(values, raw) + 1))
  }

  /** The first category of the order that has the id. */
  function Owner(candidates: Candidates, order: seq<Category>, raw: string): (r: Option<Category>)
    ensures r.Some? ==> r.value in order && raw in candidates(r.value).values
  {
    if order == [] then None
    else
      var earlier := Owner(candidates, order[..|order| - 1], raw);
      var last := order[|order| - 1];
      if earlier.Some? then earlier else if raw in candidates(last).values then Some(last) else None
  }

  /**
   With at most 1000 ids in a category, two ids get the same placeholder exactly when they are the same id
   or two ids of one collection model.
   */
  lemma ReplacementsDifferExactly(candidates: Candidates, identity: string -> Option<string>, a: string, b: string)
    requires forall c :: |candidates(c).values| <= 1000
    requires Owner(candidates, ORDER, a).Some? && Owner(candidates, ORDER, b).Some?
    ensures var c, d := Owner(candidates, ORDER, a).value, Owner(candidates, ORDER, b).value;
            ReplacementFor(candidates, identity, c, a) == ReplacementFor(candidates, identity, d, b)
            <==> a == b || (c == d == Collection && KeyOf(identity, a) == KeyOf(identity, b))
  {
    hide Alias, Owner;
    var c, d := Owner(candidates, ORDER, a).value, Owner(candidates, ORDER, b).value;
    GroupsAre(identity, candidates(c).values);
    GroupsAre(identity, candidates(d).values);
    var r, s := ReplacementFor(candidates, identity, c, a), ReplacementFor(candidates, identity, d, b);
    if r == s {
      match r
      case Number(_) =>
        NumbersDifferExactly(1000);
      case Text(_) =>
        var m := if c.Collection? then Position(Groups(identity, candidates(c).values), KeyOf(identity, a)) else Position(candidates(c).values, a);
        var n := if d.Collection? then Position(Groups(identity, candidates(d).values), KeyOf(identity, b)) else Position(candidates(d).values, b);
        AliasIsInjective(c, d, m + 1, n + 1);
    }
  }

  // ---------- The plan ----------

  ghost predicate Assigned(candidates: Candidates, identity: string -> Option<string>, secrets: set<string>, order: seq<Category>,
                           entities: map<string, Replacement>)
  {
    && (forall raw :: raw in entities <==> raw !in secrets && Owner(candidates, order, raw).Some?)
    && (forall raw :: raw in entities ==>
          var c := Owner(candidates, order, raw);
          c.Some? && entities[raw] == ReplacementFor(candidates, identity, c.value, raw))
  }

  /** The ids of one category, added to the plan unless they are in it already or are secrets. */
  ghost predicate Adds(candidates: Candidates, identity: string -> Option<string>, secrets: set<string>, c: Category,
                       before: map<string, Replacement>, after: map<string, Replacement>)
  {
    && (forall raw :: raw in after <==> raw in before || (raw in candidates(c).values && raw !in secrets))
    && (forall raw :: raw in before ==> raw in after && after[raw] == before[raw])
    && (forall raw :: raw in after && raw !in before ==>
          raw in candidates(c).values && after[raw] == ReplacementFor(candidates, identity, c, raw))
  }

  /** As `Adds`, for the ids of `done`. */
  ghost predicate AddsSome(candidates: Candidates, identity: string -> Option<string>, secrets: set<string>, c: Category,
                           before: map<string, Replacement>, done: seq<string>, after: map<string, Replacement>)
  {
    && (forall raw :: raw in after <==> raw in before || (raw in done && raw !in secrets))
    && (forall raw :: raw in before ==> raw in after && after[raw] == before[raw])
    && (forall raw :: raw in after && raw !in before ==>
          raw in candidates(c).values && after[raw] == ReplacementFor(candidates, identity, c, raw))
  }

  lemma AddsOne(candidates: Candidates, identity: string -> Option<string>, secrets: set<string>, c: Category,
                before: map<string, Replacement>, done: seq<string>, entities: map<string, Replacement>, raw: string)
    requires AddsSome(candidates, identity, secrets, c, before, done, entities) && raw in candidates(c).values
    ensures AddsSome(candidates, identity, secrets, c, before, done + [raw],
                     if raw in entities || raw in secrets then entities
                     else entities[raw := ReplacementFor(candidates, identity, c, raw)])
  {
    hide ReplacementFor;
    assert forall x :: x in done + [raw] <==> x in done || x == raw;
  }

  lemma AddsAll(candidates: Candidates, identity: string -> Option<string>, secrets: set<string>, c: Category,
                before: map<string, Replacement>, done: seq<string>, entities: map<string, Replacement>)
    requires AddsSome(candidates, identity, secrets, c, before, done, entities)
    requires forall raw :: raw in candidates(c).values <==> raw in done
    ensures Adds(candidates, identity, secrets, c, before, entities)
  {
  }

  lemma IndexReplacement(candidates: Candidates, identity: string -> Option<string>, c: Category, i: nat)
    requires !c.Collection? && Distinct(candidates(c).values) && i < |candidates(c).values|
    ensures ReplacementFor(candidates, identity, c, candidates(c).values[i])
            == if candidates(c).numeric && IsInteger(candidates(c).values[i]) then Number(NumericPlaceholder(c, i)) else Text(Alias(c, i + 1))
  {
    var values := candidates(c).values;
    assert Position(values, values[i]) == i;
  }

  method AddCategory(candidates: Candidates, identity: string -> Option<string>, secrets: set<string>, c: Category, before: map<string, Replacement>)
    returns (entities: map<string, Replacement>)
    requires !c.Collection? && Distinct(candidates(c).values)
    ensures Adds(candidates, identity, secrets, c, before, entities)
  {
    entities := before;
    var values := candidates(c).values;
    assert AddsSome(candidates, identity, secrets, c, before, values[..0], entities);
    hide *;
    for i := 0 to |values|
      invariant AddsSome(candidates, identity, secrets, c, before, values[..i], entities)
    {
      var raw := values[i];
      IndexReplacement(candidates, identity, c, i);
      AddsOne(candidates, identity, secrets, c, before, values[..i], entities, raw);
      assert values[..i + 1] == values[..i] + [raw];
      if raw !in entities && raw !in secrets {
        entities := entities[raw := if candidates(c).numeric && IsInteger(raw) then Number(NumericPlaceholder(c, i)) else Text(Alias(c, i + 1))];
      }
    }
    assert values[..|values|] == values;
    AddsAll(candidates, identity, secrets, c, before, values, entities);
  }

  /** The collection ids by group, the groups in order of first appearance. */
  lemma GroupsSnoc(identity: string -> Option<string>, values: seq<string>, raw: string)
    ensures Groups(identity, values + [raw])
            == if KeyOf(identity, raw) in Groups(identity, values) then Groups(identity, values) else Groups(identity, values) + [KeyOf(identity, raw)]
  {
    assert (values + [raw])[..|values|] == values;
  }

  /** Each id so far is in the group of its key and in no other, and there is nothing else. */
  ghost predicate Grouped(identity: string -> Option<string>, done: seq<string>, groups: map<GroupKey, seq<string>>) {
    && (forall raw :: raw in done ==> KeyOf(identity, raw) in groups)
    && (forall k, raw :: k in groups ==> (raw in groups[k] <==> raw in done && KeyOf(identity, raw) == k))
  }

  lemma GroupedSnoc(identity: string -> Option<string>, done: seq<string>, groups: map<GroupKey, seq<string>>, raw: string)
    requires Grouped(identity, done, groups)
    ensures var key := KeyOf(identity, raw);
            Grouped(identity, done + [raw], groups[key := (if key in groups then groups[key] else []) + [raw]])
  {
    hide KeyOf;
    var key := KeyOf(identity, raw);
    var now := (if key in groups then groups[key] else []) + [raw];
    assert forall r :: r in done + [raw] <==> r in done || r == raw;
    assert forall r :: r in now <==> (key in groups && r in groups[key]) || r == raw;
  }

  method GroupCollections(identity: string -> Option<string>, values: seq<string>)
    returns (keys: seq<GroupKey>, groups: map<GroupKey, seq<string>>)
    ensures keys == Groups(identity, values)
    ensures forall k :: k in keys <==> k in groups
    ensures forall k, raw :: k in groups ==> (raw in groups[k] <==> raw in values && KeyOf(identity, raw) == k)
  {
    keys, groups := [], map[];
    assert Groups(identity, values[..0]) == [];
    hide Groups, KeyOf;
    for i := 0 to |values|
      invariant keys == Groups(identity, values[..i])
      invariant forall k :: k in keys <==> k in groups
      invariant Grouped(identity, values[..i], groups)
    {
      var raw := values[i];
      var key := KeyOf(identity, raw);
      assert values[..i + 1] == values[..i] + [raw];
      GroupsSnoc(identity, values[..i], raw);
      GroupedSnoc(identity, values[..i], groups, raw);
      if key !in groups {
        keys := keys + [key];
      }
      groups := groups[key := (if key in groups then groups[key] else []) + [raw]];
    }
    assert values[..|values|] == values;
  }

  lemma GroupReplacement(candidates: Candidates, identity: string -> Option<string>, raw: string, i: nat)
    requires var values := candidates(Collection).values;
             raw in values && i < |Groups(identity, values)| && Groups(identity, values)[i] == KeyOf(identity, raw)
    ensures ReplacementFor(candidates, identity, Collection, raw) == Text(Alias(Collection, i + 1))
  {
    GroupsAre(identity, candidates(Collection).values);
  }

  /** One group: its ids share an alias. */
  method AddGroup(candidates: Candidates, identity: string -> Option<string>, secrets: set<string>, raws: seq<string>, i: nat,
                  ghost before: map<string, Replacement>, ghost done: seq<string>, start: map<string, Replacement>)
    returns (entities: map<string, Replacement>)
    requires AddsSome(candidates, identity, secrets, Collection, before, done, start)
    requires var values := candidates(Collection).values;
             && i < |Groups(identity, values)|
             && forall raw :: raw in raws ==> raw in values && Groups(identity, values)[i] == KeyOf(identity, raw)
    ensures AddsSome(candidates, identity, secrets, Collection, before, done + raws, entities)
  {
    hide *;
    entities := start;
    assert done + raws[..0] == done;
    for j := 0 to |raws|
      invariant AddsSome(candidates, identity, secrets, Collection, before, done + raws[..j], entities)
    {
      assert raws[j] in raws && done + raws[..j + 1] == done + raws[..j] + [raws[j]];
      GroupReplacement(candidates, identity, raws[j], i);
      AddsOne(candidates, identity, secrets, Collection, before, done + raws[..j], entities, raws[j]);
      if raws[j] !in entities && raws[j] !in secrets {
        entities := entities[raws[j] := Text(Alias(Collection, i + 1))];
      }
    }
    assert raws[..|raws|] == raws;
  }

  lemma EveryIdHasAGroup(identity: string -> Option<string>, values: seq<string>, keys: seq<GroupKey>,
                         groups: map<GroupKey, seq<string>>, done: seq<string>)
    requires forall k :: k in keys ==> k in groups
    requires forall raw :: raw in values ==> KeyOf(identity, raw) in keys
    requires forall k, raw :: k in groups ==> (raw in groups[k] <==> raw in values && KeyOf(identity, raw) == k)
    requires forall raw, p :: 0 <= p < |keys| && raw in groups[keys[p]] ==> raw in done
    ensures forall raw :: raw in values ==> raw in done
  {
    forall raw | raw in values ensures raw in done {
      var p :| 0 <= p < |keys| && keys[p] == KeyOf(identity, raw);
      assert raw in groups[keys[p]];
    }
  }

  method AddCollections(candidates: Candidates, identity: string -> Option<string>, secrets: set<string>, before: map<string, Replacement>)
    returns (entities: map<string, Replacement>)
    ensures Adds(candidates, identity, secrets, Collection, before, entities)
  {
    var values := candidates(Collection).values;
    GroupsAre(identity, values);
    var keys, groups := GroupCollections(identity, values);
    entities := before;
    ghost var done: seq<string> := [];
    assert AddsSome(candidates, identity, secrets, Collection, before, done, entities);
    hide *;
    for i := 0 to |keys|
      invariant AddsSome(candidates, identity, secrets, Collection, before, done, entities)
      invariant forall raw :: raw in done ==> raw in values
      invariant forall raw, p :: 0 <= p < i && raw in groups[keys[p]] ==> raw in done
    {
      entities := AddGroup(candidates, identity, secrets, groups[keys[i]], i, before, done, entities);
      done := done + groups[keys[i]];
    }
    EveryIdHasAGroup(identity, values, keys, groups, done);
    AddsAll(candidates, identity, secrets, Collection, before, done, entities);
  }

  lemma AddingKeepsAssigned(candidates: Candidates, identity: string -> Option<string>, secrets: set<string>, order: seq<Category>, c: Category,
                            before: map<string, Replacement>, after: map<string, Replacement>)
    requires Assigned(candidates, identity, secrets, order, before) && Adds(candidates, identity, secrets, c, before, after)
    ensures Assigned(candidates, identity, secrets, order + [c], after)
  {
    hide ReplacementFor;
    forall raw
      ensures Owner(candidates, order + [c], raw)
              == if Owner(candidates, order, raw).Some? then Owner(candidates, order, raw)
                 else if raw in candidates(c).values then Some(c) else None
    {
      assert (order + [c])[..|order|] == order;
    }
  }

  /** Every id that is no secret is replaced as its first category says. */
  method ReplacementPlan(candidates: Candidates, identity: string -> Option<string>, secrets: set<string>) returns (entities: map<string, Replacement>)
    requires forall c :: Distinct(candidates(c).values)
    ensures Assigned(candidates, identity, secrets, ORDER, entities)
  {
    hide Owner, Adds;
    entities := map[];
    NothingAssigned(candidates, identity, secrets);
    for i := 0 to |ORDER|
      invariant Assigned(candidates, identity, secrets, ORDER[..i], entities)
    {
      ghost var before := entities;
      if ORDER[i].Collection? {
        entities := AddCollections(candidates, identity, secrets, entities);
      } else {
        entities := AddCategory(candidates, identity, secrets, ORDER[i], entities);
      }
      AddingKeepsAssigned(candidates, identity, secrets, ORDER[..i], ORDER[i], before, entities);
      assert ORDER[..i + 1] == ORDER[..i] + [ORDER[i]];
    }
    assert ORDER[..|ORDER|] == ORDER;
  }

  lemma NothingAssigned(candidates: Candidates, identity: string -> Option<string>, secrets: set<string>)
    ensures Assigned(candidates, identity, secrets, ORDER[..0], map[])
  {
    assert ORDER[..0] == [];
  }

  // ---------- Collecting placeholders again ----------

  datatype Input = NumberIn(value: int) | TextIn(text: string)

  /** `number` is the host's reading of an integer text, `synthetic` its patterns of synthetic ids. */
  datatype Host = Host(trim: string -> string, number: string -> int, synthetic: string -> bool, print_: int -> string)

  predicate IsEntityPlaceholder(host: Host, value: Input, c: Category) {
    match value
    case NumberIn(v) => IsNumericPlaceholder(v, c)
    case TextIn(s) => host.synthetic(s) || (IsInteger(s) && IsNumericPlaceholder(host.number(s), c)) || MatchesAlias(s, c)
  }

  function AddCandidate(host: Host, candidate: Candidate, c: Category, value: Input): Candidate {
    if IsEntityPlaceholder(host, value, c) then candidate
    else
      var normalized := host.trim(match value case NumberIn(v) => host.print_(v) case TextIn(s) => s);
      if IsInteger(normalized) && IsNumericPlaceholder(host.number(normalized), c) then candidate
      else if normalized == "" || normalized == "[REDACTED]" then candidate
      else Candidate(candidate.numeric || value.NumberIn?, if normalized in candidate.values then candidate.values else candidate.values + [normalized])
  }

  /** Collecting a sanitized recording again adds nothing: neither the aliases nor the first 999 numbers, as numbers or as texts. */
  lemma PlaceholdersAddNothing(host: Host, candidate: Candidate, c: Category, index: nat)
    requires IsInteger(host.print_(NumericPlaceholder(c, index))) && host.number(host.print_(NumericPlaceholder(c, index))) == NumericPlaceholder(c, index)
    ensures AddCandidate(host, candidate, c, TextIn(Alias(c, index + 1))) == candidate
    ensures index < 999 ==>
              && AddCandidate(host, candidate, c, NumberIn(NumericPlaceholder(c, index))) == candidate
              && AddCandidate(host, candidate, c, TextIn(host.print_(NumericPlaceholder(c, index)))) == candidate
  {
    OwnAlias(c, index + 1);
    NumberIsKnownExactly(c, index);
  }

  /** A text is a placeholder when it is a synthetic id, spells a number of the category, or is an alias of it. */
  lemma EntityPlaceholderExactly(host: Host, text: string, c: Category)
    ensures IsEntityPlaceholder(host, TextIn(text), c) <==>
              || host.synthetic(text)
              || (DigitsFrom(text, if text != "" && text[0] == '-' then 1 else 0) && IsNumericPlaceholder(host.number(text), c))
              || MatchesAlias(text, c)
    ensures forall v :: IsEntityPlaceholder(host, NumberIn(v), c) <==> IsNumericPlaceholder(v, c)
  {
    IsIntegerExactly(text);
  }

  /** What is collected: every value whose trimmed text is not empty, not redacted and no placeholder, once. */
  lemma AddCandidateExactly(host: Host, candidate: Candidate, c: Category, value: Input)
    ensures var text := host.trim(match value case NumberIn(v) => host.print_(v) case TextIn(s) => s);
            var placeholder := IsEntityPlaceholder(host, value, c) || (IsInteger(text) && IsNumericPlaceholder(host.number(text), c));
            var after := AddCandidate(host, candidate, c, value);
            if placeholder || text == "" || text == "[REDACTED]" then after == candidate
            else
              && text in after.values && (forall v :: v in after.values <==> v in candidate.values || v == text)
              && candidate.values <= after.values
              && (after.numeric <==> candidate.numeric || value.NumberIn?)
              && (Distinct(candidate.values) ==> Distinct(after.values))
  {
    var text := host.trim(match value case NumberIn(v) => host.print_(v) case TextIn(s) => s);
    if Distinct(candidate.values) && text !in candidate.values {
      DistinctSnoc(candidate.values, text);
    }
  }

  /** The ranges of the numbers, the texts of the aliases and the order of the categories. */
  lemma PlaceholdersSpelled(index: nat)
    ensures NumericPlaceholder(Team, index) == -1001 - index && NumericPlaceholder(User, index) == -2001 - index
    ensures NumericPlaceholder(Workspace, index) == -3001 - index && NumericPlaceholder(Specification, index) == -4001 - index
    ensures NumericPlaceholder(Collection, index) == -5001 - index && NumericPlaceholder(Run, index) == -6001 - index
    ensures NumericPlaceholder(Uid, index) == -7001 - index
    ensures ORDER == [Workspace, Specification, Collection, Team, User, Run, Uid]
    ensures forall v :: IsNumericPlaceholder(v, Team) <==> v in [1001, 1002] || -2000 < v <= -1001
    ensures forall v :: IsNumericPlaceholder(v, User) <==> v in [2001, 2002] || -3000 < v <= -2001
    ensures forall c, v :: c != Team && c != User ==> (IsNumericPlaceholder(v, c) <==> NumericPlaceholder(c, 999) < v <= NumericPlaceholder(c, 0))
  {
  }
}
