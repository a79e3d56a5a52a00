/**
 Reading back the relations between a specification and its collections: draining the pages of a list,
 waiting until every expected collection has one complete row, and retrying a link while it is locked.
 */
module Settle {
  import opened Wrappers
  import opened Ordering

  datatype Row = Row(collectionId: string, state: string, hasOptions: bool, hasSyncOptions: bool)

  datatype Error =
    | NothingExpected | ExpectedCollision | ObservedCollision | UnrecognizedState | FieldsIncomplete | TimedOut
    | ReadFailed | PageCeiling | RepeatedCursor | LinkFailed

  const MAX_ATTEMPTS := 12
  const MAX_PAGES := 200
  const MAX_LOCKED_RETRIES := 6

  // ---------- Expected ids ----------

  /** Trimmed ids that are not empty, each once, in order of first appearance. */
  function Expected(trim: string -> string, ids: seq<string>): seq<string> {
    if ids == [] then []
    else
      var before := Expected(trim, ids[..|ids| - 1]);
      var id := trim(ids[|ids| - 1]);
      if id == "" || id in before then before else before + [id]
  }

  ghost predicate IdentitiesDiffer(identity: string -> string, expected: seq<string>) {
    forall i, j :: 0 <= i < j < |expected| ==> identity(expected[i]) != identity(expected[j])
  }

  ghost predicate Named(trim: string -> string, ids: seq<string>, id: string) {
    exists k :: 0 <= k < |ids| && trim(ids[k]) == id
  }

  lemma NamedSnoc(trim: string -> string, before: seq<string>, last: string, id: string)
    ensures Named(trim, before + [last], id) <==> Named(trim, before, id) || trim(last) == id
  {
    var all := before + [last];
    assert all[|before|] == last;
    if Named(trim, before, id) {
      var k :| 0 <= k < |before| && trim(before[k]) == id;
      assert all[k] == before[k];
    }
  }

  lemma {:induction false} ExpectedIsTheSet(trim: string -> string, ids: seq<string>)
    ensures var e := Expected(trim, ids);
            && Distinct(e)
            && (forall id :: id in e <==> id != "" && Named(trim, ids, id))
  {
    if ids != [] {
      var n := |ids| - 1;
      var before, last := Expected(trim, ids[..n]), trim(ids[n]);
      ExpectedIsTheSet(trim, ids[..n]);
      assert Expected(trim, ids) == if last == "" || last in before then before else before + [last];
      if last !in before {
        DistinctSnoc(before, last);
      }
      assert ids == ids[..n] + [ids[n]];
      forall id ensures Named(trim, ids, id) <==> Named(trim, ids[..n], id) || last == id {
        NamedSnoc(trim, ids[..n], ids[n], id);
      }
    }
  }

  method PrepareExpected(trim: string -> string, identity: string -> string, ids: seq<string>) returns (r: Result<seq<string>, Error>)
    ensures var e := Expected(trim, ids);
            r == if e == [] then Failure(NothingExpected)
                 else if IdentitiesDiffer(identity, e) then Success(e)
                 else Failure(ExpectedCollision)
  {
    var expected: seq<string> := [];
    for i := 0 to |ids|
      invariant expected == Expected(trim, ids[..i])
    {
      assert ids[..i + 1][..i] == ids[..i];
      var id := trim(ids[i]);
      if id != "" && id !in expected {
        expected := expected + [id];
      }
    }
    assert ids[..|ids|] == ids;
    if expected == [] {
      return Failure(NothingExpected);
    }
    ExpectedIsTheSet(trim, ids);
    var byIdentity: map<string, string> := map[];
    for i := 0 to |expected|
      invariant forall key :: key in byIdentity <==> exists j :: 0 <= j < i && identity(expected[j]) == key
      invariant forall j :: 0 <= j < i ==> identity(expected[j]) in byIdentity && byIdentity[identity(expected[j])] == expected[j]
    {
      var key := identity(expected[i]);
      if key in byIdentity && byIdentity[key] != expected[i] {
        var j :| 0 <= j < i && identity(expected[j]) == key;
        return Failure(ExpectedCollision);
      }
      byIdentity := byIdentity[key := expected[i]];
    }
    r := Success(expected);
  }

  // ---------- One list ----------

  /** The rows of one identity, in order. */
  function Candidates(identity: string -> string, rows: seq<Row>, key: string): seq<Row> {
    if rows == [] then []
    else
      var before := Candidates(identity, rows[..|rows| - 1], key);
      if identity(rows[|rows| - 1].collectionId) == key then before + [rows[|rows| - 1]] else before
  }

  predicate Recognized(row: Row) {
    row.state == "in-sync" || row.state == "out-of-sync"
  }

  predicate IsComplete(row: Row) {
    Recognized(row) && row.hasOptions && row.hasSyncOptions
  }

  /** Row `k` of the list is one of the collection that `id` names. */
  predicate Carries(identity: string -> string, rows: seq<Row>, id: string, k: int) {
    0 <= k < |rows| && identity(rows[k].collectionId) == identity(id)
  }

  ghost predicate Twice(identity: string -> string, rows: seq<Row>, id: string) {
    exists j, k :: j < k && Carries(identity, rows, id, j) && Carries(identity, rows, id, k)
  }

  ghost predicate Only(identity: string -> string, rows: seq<Row>, id: string, k: int) {
    Carries(identity, rows, id, k) && forall j :: Carries(identity, rows, id, j) ==> j == k
  }

  /** The places in the list of the rows of one identity. */
  function Places(identity: string -> string, rows: seq<Row>, key: string): seq<nat> {
    if rows == [] then []
    else
      var n := |rows| - 1;
      var before := Places(identity, rows[..n], key);
      if identity(rows[n].collectionId) == key then before + [n] else before
  }

  predicate Increasing(places: seq<nat>, bound: nat) {
    && (forall p :: 0 <= p < |places| ==> places[p] < bound)
    && (forall p, q :: 0 <= p < q < |places| ==> places[p] < places[q])
  }

  lemma {:induction false} PlacesIncrease(identity: string -> string, rows: seq<Row>, key: string)
    ensures Increasing(Places(identity, rows, key), |rows|)
  {
    if rows != [] {
      PlacesIncrease(identity, rows[..|rows| - 1], key);
    }
  }

  lemma {:induction false} PlacesCover(identity: string -> string, rows: seq<Row>, key: string, k: nat)
    requires k < |rows| && identity(rows[k].collectionId) == key
    ensures k in Places(identity, rows, key)
  {
    var n := |rows| - 1;
    if k < n {
      PlacesCover(identity, rows[..n], key, k);
    } else {
      var before := Places(identity, rows[..n], key);
      assert Places(identity, rows, key) == before + [n];
    }
  }

  lemma {:induction false} PlacesHold(identity: string -> string, rows: seq<Row>, key: string)
    ensures var places := Places(identity, rows, key);
            && |places| == |Candidates(identity, rows, key)|
            && forall p :: 0 <= p < |places| ==>
                 places[p] < |rows| && identity(rows[places[p]].collectionId) == key && Candidates(identity, rows, key)[p] == rows[places[p]]
  {
    if rows != [] {
      var n := |rows| - 1;
      PlacesHold(identity, rows[..n], key);
      PlacesIncrease(identity, rows[..n], key);
      var before := Places(identity, rows[..n], key);
      forall p | 0 <= p < |before| ensures before[p] < n && rows[..n][before[p]] == rows[before[p]] {
      }
    }
  }

  /** How many rows the filter finds says whether an id has none, one or several in the list. */
  lemma CandidatesExactly(identity: string -> string, rows: seq<Row>, id: string)
    ensures var c := Candidates(identity, rows, identity(id));
            && (|c| > 1 <==> Twice(identity, rows, id))
            && (|c| == 1 <==> exists k :: Only(identity, rows, id, k))
            && (|c| == 1 ==> forall k :: Only(identity, rows, id, k) ==> c[0] == rows[k])
  {
    var c := Candidates(identity, rows, identity(id));
    var places := Places(identity, rows, identity(id));
    PlacesHold(identity, rows, identity(id));
    PlacesIncrease(identity, rows, identity(id));
    forall k | Carries(identity, rows, id, k) ensures k in places {
      PlacesCover(identity, rows, identity(id), k);
    }
    hide Places, Candidates;
    if |c| > 1 {
      assert places[0] < places[1] && Carries(identity, rows, id, places[0]) && Carries(identity, rows, id, places[1]);
    }
    if |c| == 1 {
      assert forall k :: Carries(identity, rows, id, k) ==> k in places && k == places[0];
      assert Only(identity, rows, id, places[0]);
    }
    if exists k :: Carries(identity, rows, id, k) {
      var k :| Carries(identity, rows, id, k);
      assert k in places;
    }
    if Twice(identity, rows, id) {
      var j, k :| j < k && Carries(identity, rows, id, j) && Carries(identity, rows, id, k);
      assert j in places && k in places;
    }
  }

  ghost predicate CompleteAt(rows: seq<Row>, k: int)
    requires 0 <= k < |rows|
  {
    rows[k].state in ["in-sync", "out-of-sync"] && rows[k].hasOptions && rows[k].hasSyncOptions
  }

  ghost predicate HasOneComplete(identity: string -> string, rows: seq<Row>, id: string) {
    exists k :: Only(identity, rows, id, k) && CompleteAt(rows, k)
  }

  ghost predicate HasOneIncomplete(identity: string -> string, rows: seq<Row>, id: string) {
    exists k :: Only(identity, rows, id, k) && !CompleteAt(rows, k)
  }

  /** Exactly one complete row for every expected id. */
  ghost predicate AllComplete(identity: string -> string, expected: seq<string>, rows: seq<Row>) {
    forall i :: 0 <= i < |expected| ==> HasOneComplete(identity, rows, expected[i])
  }

  ghost predicate SomeTwice(identity: string -> string, expected: seq<string>, rows: seq<Row>) {
    exists i :: 0 <= i < |expected| && Twice(identity, rows, expected[i])
  }

  /** Some expected id has two rows, or one that is not complete. */
  ghost predicate SomeInvalid(identity: string -> string, expected: seq<string>, rows: seq<Row>) {
    SomeTwice(identity, expected, rows) || exists i :: 0 <= i < |expected| && HasOneIncomplete(identity, rows, expected[i])
  }

  /** The row of an id, under the id that was asked for. */
  ghost predicate RelationOf(identity: string -> string, rows: seq<Row>, id: string, relation: Row) {
    exists k :: Only(identity, rows, id, k) && relation == rows[k].(collectionId := id)
  }

  /** The rows found, in the order of the expected ids. */
  ghost predicate AreRelations(identity: string -> string, expected: seq<string>, rows: seq<Row>, relations: seq<Row>) {
    |relations| == |expected| && forall i :: 0 <= i < |expected| ==> RelationOf(identity, rows, expected[i], relations[i])
  }

  /** The first expected id with an incomplete row, and what is reported of it. */
  ghost predicate FirstIncomplete(identity: string -> string, expected: seq<string>, rows: seq<Row>, error: Error) {
    exists i, k ::
      && 0 <= i < |expected| && Only(identity, rows, expected[i], k) && !CompleteAt(rows, k)
      && (forall j :: 0 <= j < i ==> !HasOneIncomplete(identity, rows, expected[j]))
      && error == if rows[k].state in ["in-sync", "out-of-sync"] then FieldsIncomplete else UnrecognizedState
  }

  datatype Verdict = Settled(relations: seq<Row>) | Waiting | Invalid(error: Error)

  ghost predicate IndexedAt(identity: string -> string, rows: seq<Row>, id: string, byId: map<string, Row>) {
    && (id in byId <==> exists k :: Only(identity, rows, id, k))
    && (forall k :: Only(identity, rows, id, k) && id in byId ==> byId[id] == rows[k])
  }

  method IndexRows(identity: string -> string, expected: seq<string>, rows: seq<Row>) returns (byId: map<string, Row>, collision: bool)
    requires Distinct(expected)
    ensures collision <==> SomeTwice(identity, expected, rows)
    ensures !collision ==> forall i :: 0 <= i < |expected| ==> IndexedAt(identity, rows, expected[i], byId)
  {
    hide Candidates, Carries;
    byId := map[];
    for i := 0 to |expected|
      invariant forall j :: 0 <= j < i ==> IndexedAt(identity, rows, expected[j], byId) && !Twice(identity, rows, expected[j])
      invariant forall id :: id in byId ==> id in expected[..i]
    {
      var candidates := Candidates(identity, rows, identity(expected[i]));
      CandidatesExactly(identity, rows, expected[i]);
      if |candidates| > 1 {
        return byId, true;
      }
      assert expected[..i + 1] == expected[..i] + [expected[i]];
      forall j | 0 <= j < i ensures expected[..i][j] == expected[j] && expected[j] != expected[i] {
      }
      if |candidates| == 1 {
        byId := byId[expected[i] := candidates[0]];
      }
    }
    collision := false;
  }

  method JudgeList(identity: string -> string, expected: seq<string>, rows: seq<Row>) returns (v: Verdict)
    requires Distinct(expected)
    ensures v.Invalid? <==> SomeInvalid(identity, expected, rows)
    ensures v.Settled? <==> AllComplete(identity, expected, rows)
    ensures v.Settled? ==> AreRelations(identity, expected, rows, v.relations)
    ensures v == Invalid(ObservedCollision) <==> SomeTwice(identity, expected, rows)
    ensures v.Invalid? && v.error != ObservedCollision ==> FirstIncomplete(identity, expected, rows, v.error)
  {
    hide Carries, Only, Twice;
    InvalidIsNotComplete(identity, expected, rows);
    var byId, collision := IndexRows(identity, expected, rows);
    if collision {
      return Invalid(ObservedCollision);
    }
    for i := 0 to |expected|
      invariant forall j :: 0 <= j < i ==> !HasOneIncomplete(identity, rows, expected[j])
    {
      if expected[i] in byId {
        var row := byId[expected[i]];
        ghost var k := TheOnly(identity, rows, expected[i], byId);
        if !Recognized(row) {
          return Invalid(UnrecognizedState);
        }
        if !IsComplete(row) {
          return Invalid(FieldsIncomplete);
        }
      }
    }
    var relations: seq<Row> := [];
    for i := 0 to |expected|
      invariant |relations| == i
      invariant forall j :: 0 <= j < i ==>
                  RelationOf(identity, rows, expected[j], relations[j]) && HasOneComplete(identity, rows, expected[j])
    {
      if expected[i] !in byId {
        return Waiting;
      }
      ghost var k := TheOnly(identity, rows, expected[i], byId);
      relations := relations + [byId[expected[i]].(collectionId := expected[i])];
    }
    v := Settled(relations);
  }

  lemma TheOnly(identity: string -> string, rows: seq<Row>, id: string, byId: map<string, Row>) returns (k: int)
    requires IndexedAt(identity, rows, id, byId) && id in byId
    ensures 0 <= k < |rows| && Only(identity, rows, id, k) && byId[id] == rows[k]
    ensures forall j :: Only(identity, rows, id, j) ==> j == k
  {
    k :| Only(identity, rows, id, k);
  }

  // ---------- The wait ----------

  /** What the list of each attempt answers; None when reading it fails. */
  type Lists = nat -> Option<seq<Row>>

  datatype Wait = Done(relations: seq<Row>, attempts: nat) | Failed(at: nat, error: Error)

  ghost predicate StillMissing(identity: string -> string, expected: seq<string>, list: Option<seq<Row>>) {
    && list.Some?
    && !SomeInvalid(identity, expected, list.value)
    && !AllComplete(identity, expected, list.value)
  }

  /**
   Success at attempt k means that k is the first attempt at which every expected id has exactly one
   complete row, that k is within the bound and that no earlier list was unreadable or invalid.
   */
  ghost predicate SettledAt(identity: string -> string, expected: seq<string>, lists: Lists, k: nat) {
    && 1 <= k <= 12
    && lists(k).Some? && AllComplete(identity, expected, lists(k).value)
    && forall j :: 1 <= j < k ==> StillMissing(identity, expected, lists(j))
  }

  method SettleRelations(identity: string -> string, expected: seq<string>, lists: Lists) returns (w: Wait)
    requires expected != [] && Distinct(expected)
    ensures w.Done? ==> SettledAt(identity, expected, lists, w.attempts) && AreRelations(identity, expected, lists(w.attempts).value, w.relations)
    ensures w.Failed? ==> forall k :: !SettledAt(identity, expected, lists, k)
    ensures w.Failed? ==>
              && 1 <= w.at <= 12
              && (forall j :: 1 <= j < w.at ==> StillMissing(identity, expected, lists(j)))
              && (w.error == ReadFailed <==> lists(w.at).None?)
              && (w.error == TimedOut <==> StillMissing(identity, expected, lists(w.at)))
              && (w.error == TimedOut ==> w.at == 12)
              && (w.error != ReadFailed && w.error != TimedOut <==> lists(w.at).Some? && SomeInvalid(identity, expected, lists(w.at).value))
              && (w.error == ObservedCollision <==> lists(w.at).Some? && SomeTwice(identity, expected, lists(w.at).value))
              && (w.error == UnrecognizedState || w.error == FieldsIncomplete ==> FirstIncomplete(identity, expected, lists(w.at).value, w.error))
  {
    for attempt := 1 to MAX_ATTEMPTS + 1
      invariant forall j :: 1 <= j < attempt ==> StillMissing(identity, expected, lists(j))
    {
      var list := lists(attempt);
      if list.None? {
        return Failed(attempt, ReadFailed);
      }
      var verdict := JudgeList(identity, expected, list.value);
      InvalidIsNotComplete(identity, expected, list.value);
      match verdict
      case Invalid(error) =>
        return Failed(attempt, error);
      case Settled(relations) =>
        return Done(relations, attempt);
      case Waiting =>
    }
    w := Failed(MAX_ATTEMPTS, TimedOut);
  }

  lemma InvalidIsNotComplete(identity: string -> string, expected: seq<string>, rows: seq<Row>)
    ensures !(SomeInvalid(identity, expected, rows) && AllComplete(identity, expected, rows))
  {
  }

  // ---------- Pages ----------

  datatype Page = Page(rows: seq<Row>, next: string)

  /** What the read number `n` with a cursor answers; None when it fails. */
  type Pages = (nat, string) -> Option<Page>

  function Cursor(pages: Pages, n: nat): string {
    if n == 0 then ""
    else
      match pages(n - 1, Cursor(pages, n - 1))
      case None => ""
      case Some(page) => page.next
  }

  function PageAt(pages: Pages, n: nat): Option<Page> {
    pages(n, Cursor(pages, n))
  }

  /** The pages 0 to n - 1 form a list: all read, all but the last with a next cursor. */
  ghost predicate ChainOf(pages: Pages, n: nat) {
    && n > 0
    && (forall i :: 0 <= i < n ==> PageAt(pages, i).Some?)
    && (forall i :: 0 <= i < n ==> (PageAt(pages, i).value.next == "" <==> i == n - 1))
  }

  ghost predicate CursorsDiffer(pages: Pages, n: nat) {
    forall i, j :: 1 <= i < j < n ==> Cursor(pages, i) != Cursor(pages, j)
  }

  function RowsOf(pages: Pages, n: nat): seq<Row> {
    if n == 0 then []
    else RowsOf(pages, n - 1) + match PageAt(pages, n - 1) case None => [] case Some(page) => page.rows
  }

  /**
   Draining returns the rows of a chain of at most 200 pages whose cursors differ, in order, and fails on
   every other answer.
   */
  method DrainRelations(pages: Pages) returns (r: Result<seq<Row>, Error>)
    ensures r.Success? <==> exists n: nat :: n <= 200 && ChainOf(pages, n) && CursorsDiffer(pages, n)
    ensures forall n: nat :: ChainOf(pages, n) && r.Success? ==> r.value == RowsOf(pages, n)
  {
    hide Cursor, RowsOf;
    ChainStarts(pages);
    var rows: seq<Row> := [];
    var seen: set<string> := {};
    var cursor := "";
    for page := 0 to MAX_PAGES
      invariant cursor == Cursor(pages, page)
      invariant rows == RowsOf(pages, page)
      invariant forall i :: 0 <= i < page ==> PageAt(pages, i).Some? && PageAt(pages, i).value.next != ""
      invariant forall c :: c in seen <==> exists i :: 1 <= i <= page && Cursor(pages, i) == c
      invariant forall i, j :: 1 <= i < j <= page ==> Cursor(pages, i) != Cursor(pages, j)
    {
      var answer := pages(page, cursor);
      assert answer == PageAt(pages, page);
      ChainEndsAfter(pages, page);
      ChainStep(pages, page);
      if answer.None? {
        return Failure(ReadFailed);
      }
      rows := rows + answer.value.rows;
      if answer.value.next == "" {
        assert ChainOf(pages, page + 1) && CursorsDiffer(pages, page + 1);
        ChainIsUnique(pages, page + 1);
        return Success(rows);
      }
      if answer.value.next in seen {
        var i :| 1 <= i <= page && Cursor(pages, i) == answer.value.next;
        ChainEndsAfter(pages, page + 1);
        return Failure(RepeatedCursor);
      }
      seen := seen + {answer.value.next};
      cursor := answer.value.next;
    }
    ChainEndsAfter(pages, MAX_PAGES);
    r := Failure(PageCeiling);
  }

  lemma ChainStarts(pages: Pages)
    ensures Cursor(pages, 0) == "" && RowsOf(pages, 0) == []
  {
  }

  lemma ChainStep(pages: Pages, n: nat)
    ensures PageAt(pages, n).Some? ==>
              && Cursor(pages, n + 1) == PageAt(pages, n).value.next
              && RowsOf(pages, n + 1) == RowsOf(pages, n) + PageAt(pages, n).value.rows
  {
  }

  lemma ChainEndsAfter(pages: Pages, n: nat)
    requires forall i :: 0 <= i < n ==> PageAt(pages, i).Some? && PageAt(pages, i).value.next != ""
    ensures forall m: nat :: ChainOf(pages, m) ==> m > n
  {
    forall m: nat | ChainOf(pages, m) ensures m > n {
      assert PageAt(pages, m - 1).value.next == "";
    }
  }

  lemma ChainIsUnique(pages: Pages, n: nat)
    requires ChainOf(pages, n)
    ensures forall m: nat :: ChainOf(pages, m) ==> m == n
  {
    forall m: nat | ChainOf(pages, m) ensures m == n {
      assert PageAt(pages, n - 1).value.next == "" && PageAt(pages, m - 1).value.next == "";
    }
  }

  // ---------- Linking while locked ----------

  datatype Status = Ok | Locked | Other

  /** The answer to put number `n`. */
  type Puts = nat -> Status

  /** A link succeeds exactly when at most 6 puts find the list locked before one is accepted. */
  method LinkCollections(count: nat, puts: Puts) returns (r: Result<nat, Error>, sent: nat)
    ensures count == 0 ==> r == Success(0) && sent == 0
    ensures count > 0 ==> 1 <= sent <= 7 && forall i :: 0 <= i < sent - 1 ==> puts(i) == Locked
    ensures count > 0 ==> (r.Success? <==> exists n: nat :: n <= 6 && puts(n) == Ok && forall i :: 0 <= i < n ==> puts(i) == Locked)
    ensures count > 0 && r.Success? ==> r.value == sent - 1 && puts(r.value) == Ok
    ensures count > 0 && r.Failure? ==> puts(sent - 1) == Other || (puts(sent - 1) == Locked && sent == 7)
  {
    if count == 0 {
      return Success(0), 0;
    }
    sent := 0;
    while true
      invariant 0 <= sent <= MAX_LOCKED_RETRIES
      invariant forall i :: 0 <= i < sent ==> puts(i) == Locked
      decreases MAX_LOCKED_RETRIES - sent
    {
      var status := puts(sent);
      sent := sent + 1;
      if status == Ok {
        return Success(sent - 1), sent;
      }
      if status == Other || sent > MAX_LOCKED_RETRIES {
        return Failure(LinkFailed), sent;
      }
    }
  }
}
