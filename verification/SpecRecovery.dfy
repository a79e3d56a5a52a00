/**
 What running the ordered operations does to the stored set: the plan is met exactly, the set stays
 usable at every prefix, and from every crash point a new plan reaches either set.
 */
module SpecRecovery {
  import opened Wrappers
  import opened Ordering
  import opened SpecReconcile

  datatype Stored = Stored(path: string, kind: Kind, content: string)

  /** The stored set, by file id. */
  type State = map<string, Stored>

  // ---------- Execution ----------

  /** One call.  The server picks the id of a created file. */
  function Apply(st: State, op: Op, newId: string): State {
    match op
    case CreateOp(path, content) => st[newId := Stored(path, Default, content)]
    case UpdateOp(_, id, content) => if id in st then st[id := st[id].(content := content)] else st
    case DeleteOp(_, id) => st - {id}
  }

  function Exec(st: State, ops: seq<Op>, newIds: seq<string>): State
    requires |newIds| == |ops|
  {
    if ops == [] then st
    else
      var n := |ops| - 1;
      Apply(Exec(st, ops[..n], newIds[..n]), ops[n], newIds[n])
  }

  ghost predicate FreshIds(st: State, newIds: seq<string>) {
    Distinct(newIds) && forall id :: id in newIds ==> id !in st
  }

  /** The content a file has after its updates. */
  function Updated(ops: seq<Op>, id: string, content: string): string {
    if ops == [] then content
    else
      var op := ops[|ops| - 1];
      if op.UpdateOp? && op.id == id then op.content else Updated(ops[..|ops| - 1], id, content)
  }

  ghost predicate Deleted(ops: seq<Op>, id: string) {
    exists j :: 0 <= j < |ops| && ops[j].DeleteOp? && ops[j].id == id
  }

  ghost predicate OnStored(st: State, ops: seq<Op>) {
    forall op :: op in ops && !op.CreateOp? ==> op.id in st
  }

  /** The effect of a sequence of operations, file by file. */
  ghost predicate Effect(st: State, ops: seq<Op>, newIds: seq<string>, s: State)
    requires |newIds| == |ops|
  {
    && (forall j :: 0 <= j < |ops| && ops[j].CreateOp? ==>
          newIds[j] in s && s[newIds[j]] == Stored(ops[j].path, Default, ops[j].content))
    && (forall id :: id in s && id !in st ==> Created(ops, newIds, id))
    && (forall id :: id in st ==> (id in s <==> !Deleted(ops, id)))
    && (forall id :: id in st && id in s ==> s[id] == st[id].(content := Updated(ops, id, st[id].content)))
  }

  lemma FreshPrefix(st: State, newIds: seq<string>, k: nat)
    requires FreshIds(st, newIds) && k <= |newIds|
    ensures FreshIds(st, newIds[..k])
  {
    forall i | 0 <= i < k ensures newIds[..k][i] == newIds[i] {
    }
  }

  lemma {:induction false} ExecEffect(st: State, ops: seq<Op>, newIds: seq<string>)
    requires |newIds| == |ops| && FreshIds(st, newIds) && OnStored(st, ops)
    ensures Effect(st, ops, newIds, Exec(st, ops, newIds))
  {
    if ops != [] {
      var n := |ops| - 1;
      var before := ops[..n];
      var ids := newIds[..n];
      assert ops == before + [ops[n]] && newIds == ids + [newIds[n]];
      FreshPrefix(st, newIds, n);
      ExecEffect(st, before, ids);
      EffectSnoc(st, before, ids, Exec(st, before, ids), ops[n], newIds[n]);
    }
  }

  lemma EffectSnoc(st: State, ops: seq<Op>, newIds: seq<string>, s: State, op: Op, newId: string)
    requires |newIds| == |ops| && Effect(st, ops, newIds, s)
    requires FreshIds(st, newIds + [newId]) && OnStored(st, ops + [op])
    ensures Effect(st, ops + [op], newIds + [newId], Apply(s, op, newId))
  {
    hide Deleted, Updated, Created;
    var ops', ids', s' := ops + [op], newIds + [newId], Apply(s, op, newId);
    assert op in ops' && newId in ids' && ids'[|ops|] == newId;
    forall j | 0 <= j < |ops| ensures newIds[j] != newId && newIds[j] !in st {
      assert ids'[j] != ids'[|ops|] && ids'[j] in ids';
    }
    forall id | id in st
      ensures Deleted(ops', id) <==> Deleted(ops, id) || (op.DeleteOp? && op.id == id)
      ensures Updated(ops', id, st[id].content) == if op.UpdateOp? && op.id == id then op.content else Updated(ops, id, st[id].content)
    {
      DeletedSnoc(ops, op, id);
      UpdatedSnoc(ops, op, id, st[id].content);
    }
    forall id | id in s' && id !in st ensures Created(ops', ids', id) {
      CreatedSnoc(ops, newIds, op, newId, id);
    }
  }

  ghost predicate Created(ops: seq<Op>, newIds: seq<string>, id: string)
    requires |newIds| == |ops|
  {
    exists j :: 0 <= j < |ops| && ops[j].CreateOp? && newIds[j] == id
  }

  lemma CreatedSnoc(ops: seq<Op>, newIds: seq<string>, op: Op, newId: string, id: string)
    requires |newIds| == |ops|
    ensures Created(ops + [op], newIds + [newId], id) <==> Created(ops, newIds, id) || (op.CreateOp? && newId == id)
  {
    var ops', ids' := ops + [op], newIds + [newId];
    if Created(ops, newIds, id) {
      var j :| 0 <= j < |ops| && ops[j].CreateOp? && newIds[j] == id;
      assert ops'[j] == ops[j] && ids'[j] == id;
    }
    assert ops'[|ops|] == op && ids'[|ops|] == newId;
  }

  lemma DeletedSnoc(ops: seq<Op>, op: Op, id: string)
    ensures Deleted(ops + [op], id) <==> Deleted(ops, id) || (op.DeleteOp? && op.id == id)
  {
    var ops' := ops + [op];
    if Deleted(ops, id) {
      var j :| 0 <= j < |ops| && ops[j].DeleteOp? && ops[j].id == id;
      assert ops'[j] == ops[j];
    }
    assert ops'[|ops|] == op;
  }

  lemma UpdatedSnoc(ops: seq<Op>, op: Op, id: string, content: string)
    ensures Updated(ops + [op], id, content) == if op.UpdateOp? && op.id == id then op.content else Updated(ops, id, content)
  {
    assert (ops + [op])[..|ops|] == ops;
  }

  lemma {:induction false} UpdatedTo(ops: seq<Op>, id: string, content: string, final: string)
    requires forall op :: op in ops && op.UpdateOp? && op.id == id ==> op.content == final
    requires content == final || exists op :: op in ops && op.UpdateOp? && op.id == id
    ensures Updated(ops, id, content) == final
  {
    if ops != [] {
      var last := ops[|ops| - 1];
      if !(last.UpdateOp? && last.id == id) {
        assert ops == ops[..|ops| - 1] + [last];
        UpdatedTo(ops[..|ops| - 1], id, content, final);
      }
    }
  }

  lemma {:induction false} NotUpdated(ops: seq<Op>, id: string, content: string)
    requires forall op :: op in ops && op.UpdateOp? ==> op.id != id
    ensures Updated(ops, id, content) == content
  {
    if ops != [] {
      NotUpdated(ops[..|ops| - 1], id, content);
    }
  }

  // ---------- Sets, targets and plans ----------

  function At(rules: PathRules, st: State, id: string): string
    requires id in st
  {
    Norm(rules, st[id].path)
  }

  ghost predicate Absent(rules: PathRules, st: State, path: string) {
    forall id :: id in st ==> At(rules, st, id) != path
  }

  /** Stored paths are valid and do not fold together. */
  ghost predicate Unambiguous(rules: PathRules, st: State) {
    && (forall id :: id in st ==> rules.valid(st[id].path).Some?)
    && (forall a, b :: a in st && b in st && a != b ==> rules.fold(At(rules, st, a)) != rules.fold(At(rules, st, b)))
  }

  /** The one root file is at `root`. */
  ghost predicate Rooted(rules: PathRules, st: State, root: string) {
    && (exists id :: id in st && At(rules, st, id) == root)
    && (forall id :: id in st ==> (st[id].kind.Root? <==> At(rules, st, id) == root))
  }

  /** A bundle: normalized paths that do not fold together, and one root. */
  ghost predicate WellFormed(rules: PathRules, target: seq<DefinitionFile>, root: string) {
    && (forall f :: f in target ==> rules.valid(f.path) == Some(f.path) && (f.isRoot <==> f.path == root))
    && (forall i, j :: 0 <= i < j < |target| ==> rules.fold(target[i].path) != rules.fold(target[j].path))
    && root in Paths(target)
  }

  /** Every operation corrects a difference between the stored set and the target. */
  ghost predicate Sound(rules: PathRules, st: State, target: seq<DefinitionFile>, upserts: seq<Op>, roots: seq<Op>, deletes: seq<Op>) {
    && (forall op :: op in upserts && op.CreateOp? ==>
          Absent(rules, st, op.path) && DefinitionFile(op.path, false, op.content) in target)
    && (forall op :: op in upserts && !op.CreateOp? ==>
          op.UpdateOp? && op.id in st && st[op.id].kind.Default? && DefinitionFile(At(rules, st, op.id), false, op.content) in target)
    && (forall op :: op in roots ==>
          op.UpdateOp? && op.id in st && st[op.id].kind.Root? && DefinitionFile(At(rules, st, op.id), true, op.content) in target)
    && (forall op :: op in deletes ==> op.DeleteOp? && op.id in st && At(rules, st, op.id) !in Paths(target))
  }

  /** Every difference has its operation. */
  ghost predicate Complete(rules: PathRules, st: State, target: seq<DefinitionFile>, upserts: seq<Op>, roots: seq<Op>, deletes: seq<Op>) {
    && (forall f :: f in target && Absent(rules, st, f.path) ==> CreateOp(f.path, f.content) in upserts)
    && (forall f, id :: f in target && id in st && At(rules, st, id) == f.path && st[id].content != f.content ==>
          UpdateOp(f.path, id, f.content) in if f.isRoot then roots else upserts)
    && (forall id :: id in st && At(rules, st, id) !in Paths(target) ==> DeleteOp(At(rules, st, id), id) in deletes)
  }

  /** The operations `upserts + roots + deletes` say exactly how the stored set differs from the target. */
  ghost predicate Faithful(rules: PathRules, st: State, target: seq<DefinitionFile>,
                           upserts: seq<Op>, roots: seq<Op>, deletes: seq<Op>)
  {
    && Sound(rules, st, target, upserts, roots, deletes)
    && Complete(rules, st, target, upserts, roots, deletes)
    && (forall i, j :: 0 <= i < j < |upserts| && upserts[i].CreateOp? && upserts[j].CreateOp? ==> upserts[i].path != upserts[j].path)
  }

  // ---------- Safety of every prefix ----------

  ghost predicate HasFile(rules: PathRules, s: State, f: DefinitionFile) {
    exists id :: id in s && At(rules, s, id) == f.path && s[id].content == f.content &&
                 s[id].kind == if f.isRoot then Root else Default
  }

  /** Every target file has its final content. */
  ghost predicate HasAll(rules: PathRules, s: State, target: seq<DefinitionFile>) {
    forall f :: f in target ==> HasFile(rules, s, f)
  }

  ghost predicate HasDependencies(rules: PathRules, s: State, target: seq<DefinitionFile>) {
    forall f :: f in target && !f.isRoot ==> HasFile(rules, s, f)
  }

  lemma PrefixParts(upserts: seq<Op>, roots: seq<Op>, deletes: seq<Op>, k: nat)
    requires k <= |upserts| + |roots| + |deletes|
    ensures var prefix := (upserts + roots + deletes)[..k];
            && (forall op :: op in prefix ==> op in upserts || op in roots || op in deletes)
            && (k <= |upserts| ==> forall op :: op in prefix ==> op in upserts)
            && (k <= |upserts| + |roots| ==> forall op :: op in prefix ==> op in upserts || op in roots)
            && (k >= |upserts| ==> forall op :: op in upserts ==> op in prefix)
            && (k >= |upserts| + |roots| ==> forall op :: op in roots ==> op in prefix)
            && (k == |upserts| + |roots| + |deletes| ==> forall op :: op in deletes ==> op in prefix)
  {
    var all := upserts + roots + deletes;
    var prefix := all[..k];
    forall op | op in prefix
      ensures op in upserts || op in roots || op in deletes
      ensures k <= |upserts| ==> op in upserts
      ensures k <= |upserts| + |roots| ==> op in upserts || op in roots
    {
      var i :| 0 <= i < k && all[i] == op;
    }
    if k >= |upserts| {
      forall op | op in upserts ensures op in prefix {
        var i :| 0 <= i < |upserts| && upserts[i] == op;
        assert prefix[i] == op;
      }
    }
    if k >= |upserts| + |roots| {
      forall op | op in roots ensures op in prefix {
        var i :| 0 <= i < |roots| && roots[i] == op;
        assert prefix[|upserts| + i] == op;
      }
    }
    if k == |all| {
      assert prefix == all;
    }
  }

  /** After the upserts every dependency is final, and after the root update everything is. */
  lemma DependenciesFinal(rules: PathRules, st: State, target: seq<DefinitionFile>, root: string,
                          upserts: seq<Op>, roots: seq<Op>, deletes: seq<Op>, k: nat, newIds: seq<string>, s: State)
    requires Unambiguous(rules, st) && Rooted(rules, st, root) && WellFormed(rules, target, root)
    requires Faithful(rules, st, target, upserts, roots, deletes)
    requires |upserts| <= k <= |upserts| + |roots| + |deletes| && |newIds| == k
    requires Effect(st, (upserts + roots + deletes)[..k], newIds, s)
    ensures HasDependencies(rules, s, target)
    ensures k >= |upserts| + |roots| ==> HasAll(rules, s, target)
  {
    forall f | f in target && (f.isRoot ==> k >= |upserts| + |roots|) ensures HasFile(rules, s, f) {
      if Absent(rules, st, f.path) {
        CreatedFile(rules, st, target, root, upserts, roots, deletes, k, newIds, s, f);
      } else {
        var id :| id in st && At(rules, st, id) == f.path;
        KeptFile(rules, st, target, root, upserts, roots, deletes, k, newIds, s, f, id);
      }
    }
  }

  lemma CreatedFile(rules: PathRules, st: State, target: seq<DefinitionFile>, root: string,
                    upserts: seq<Op>, roots: seq<Op>, deletes: seq<Op>, k: nat, newIds: seq<string>, s: State, f: DefinitionFile)
    requires Rooted(rules, st, root) && WellFormed(rules, target, root)
    requires Faithful(rules, st, target, upserts, roots, deletes)
    requires |upserts| <= k <= |upserts| + |roots| + |deletes| && |newIds| == k
    requires Effect(st, (upserts + roots + deletes)[..k], newIds, s)
    requires f in target && Absent(rules, st, f.path)
    ensures HasFile(rules, s, f)
  {
    var prefix := (upserts + roots + deletes)[..k];
    PrefixParts(upserts, roots, deletes, k);
    var op := CreateOp(f.path, f.content);
    assert op in prefix;
    var j :| 0 <= j < |prefix| && prefix[j] == op;
    assert s[newIds[j]] == Stored(f.path, Default, f.content) && At(rules, s, newIds[j]) == f.path;
    var r :| r in st && At(rules, st, r) == root;
    assert !f.isRoot;
  }

  lemma KeptFile(rules: PathRules, st: State, target: seq<DefinitionFile>, root: string,
                 upserts: seq<Op>, roots: seq<Op>, deletes: seq<Op>, k: nat, newIds: seq<string>, s: State, f: DefinitionFile, id: string)
    requires Rooted(rules, st, root) && WellFormed(rules, target, root)
    requires Faithful(rules, st, target, upserts, roots, deletes)
    requires |upserts| <= k <= |upserts| + |roots| + |deletes| && |newIds| == k
    requires Effect(st, (upserts + roots + deletes)[..k], newIds, s)
    requires f in target && id in st && At(rules, st, id) == f.path && (f.isRoot ==> k >= |upserts| + |roots|)
    ensures HasFile(rules, s, f)
  {
    KeptContent(rules, st, target, root, upserts, roots, deletes, k, f, id);
    assert f.path in Paths(target);
    NeverDeleted(rules, st, target, upserts, roots, deletes, k, id);
    assert s[id] == st[id].(content := f.content);
    assert At(rules, s, id) == f.path;
  }

  /** A file of the target is never deleted, nor is anything before the root has been updated. */
  lemma NeverDeleted(rules: PathRules, st: State, target: seq<DefinitionFile>,
                     upserts: seq<Op>, roots: seq<Op>, deletes: seq<Op>, k: nat, id: string)
    requires Faithful(rules, st, target, upserts, roots, deletes)
    requires k <= |upserts| + |roots| + |deletes|
    requires id in st && (At(rules, st, id) in Paths(target) || k <= |upserts| + |roots|)
    ensures !Deleted((upserts + roots + deletes)[..k], id)
  {
    var prefix := (upserts + roots + deletes)[..k];
    PrefixParts(upserts, roots, deletes, k);
    forall j | 0 <= j < |prefix| && prefix[j].DeleteOp? ensures prefix[j].id != id {
      assert prefix[j] in prefix;
    }
  }

  lemma KeptContent(rules: PathRules, st: State, target: seq<DefinitionFile>, root: string,
                    upserts: seq<Op>, roots: seq<Op>, deletes: seq<Op>, k: nat, f: DefinitionFile, id: string)
    requires WellFormed(rules, target, root) && Faithful(rules, st, target, upserts, roots, deletes)
    requires |upserts| <= k <= |upserts| + |roots| + |deletes|
    requires f in target && id in st && At(rules, st, id) == f.path
    requires f.isRoot ==> k >= |upserts| + |roots|
    ensures Updated((upserts + roots + deletes)[..k], id, st[id].content) == f.content
  {
    var prefix := (upserts + roots + deletes)[..k];
    PrefixParts(upserts, roots, deletes, k);
    OneFilePerPath(rules, target, root);
    forall op | op in prefix && op.UpdateOp? && op.id == id ensures op.content == f.content {
      if op in upserts {
        assert DefinitionFile(f.path, false, op.content) in target;
      } else {
        assert DefinitionFile(f.path, true, op.content) in target;
      }
    }
    if st[id].content != f.content {
      assert UpdateOp(f.path, id, f.content) in prefix;
    }
    UpdatedTo(prefix, id, st[id].content, f.content);
  }

  lemma OneFilePerPath(rules: PathRules, target: seq<DefinitionFile>, root: string)
    requires WellFormed(rules, target, root)
    ensures forall f, g :: f in target && g in target && f.path == g.path ==> f == g
  {
    forall f, g | f in target && g in target && f.path == g.path ensures f == g {
      var i :| 0 <= i < |target| && target[i] == f;
      var j :| 0 <= j < |target| && target[j] == g;
      assert i == j || i < j || j < i;
    }
  }

  /**
   At every prefix the root file is there; the root has new content only once every dependency of the
   target is final, and nothing is gone before the whole target is final.
   */
  lemma EveryPrefixIsUsable(rules: PathRules, st: State, target: seq<DefinitionFile>, root: string,
                            upserts: seq<Op>, roots: seq<Op>, deletes: seq<Op>, k: nat, newIds: seq<string>)
    requires Unambiguous(rules, st) && Rooted(rules, st, root) && WellFormed(rules, target, root)
    requires Faithful(rules, st, target, upserts, roots, deletes)
    requires k <= |upserts| + |roots| + |deletes| && |newIds| == k && FreshIds(st, newIds)
    ensures var s := Exec(st, (upserts + roots + deletes)[..k], newIds);
            && Rooted(rules, s, root)
            && (forall id :: id in st && st[id].kind.Root? ==> id in s)
            && ((exists id :: id in st && id in s && st[id].kind.Root? && s[id].content != st[id].content) ==> HasDependencies(rules, s, target))
            && ((exists id :: id in st && id !in s) ==> HasAll(rules, s, target))
  {
    var prefix := (upserts + roots + deletes)[..k];
    var s := Exec(st, prefix, newIds);
    PrefixOnStored(rules, st, target, upserts, roots, deletes, k);
    ExecEffect(st, prefix, newIds);
    if k >= |upserts| {
      DependenciesFinal(rules, st, target, root, upserts, roots, deletes, k, newIds, s);
    }
    PrefixRooted(rules, st, target, root, upserts, roots, deletes, k, newIds, s);
    if k <= |upserts| + |roots| {
      forall id | id in st ensures id in s {
        NeverDeleted(rules, st, target, upserts, roots, deletes, k, id);
      }
    }
    if k <= |upserts| {
      PrefixParts(upserts, roots, deletes, k);
      forall id | id in st && st[id].kind.Root? ensures s[id].content == st[id].content {
        NotUpdated(prefix, id, st[id].content);
      }
    }
  }

  lemma PrefixOnStored(rules: PathRules, st: State, target: seq<DefinitionFile>,
                       upserts: seq<Op>, roots: seq<Op>, deletes: seq<Op>, k: nat)
    requires Faithful(rules, st, target, upserts, roots, deletes) && k <= |upserts| + |roots| + |deletes|
    ensures OnStored(st, (upserts + roots + deletes)[..k])
  {
    PrefixParts(upserts, roots, deletes, k);
  }

  lemma PrefixRooted(rules: PathRules, st: State, target: seq<DefinitionFile>, root: string,
                     upserts: seq<Op>, roots: seq<Op>, deletes: seq<Op>, k: nat, newIds: seq<string>, s: State)
    requires Rooted(rules, st, root) && WellFormed(rules, target, root)
    requires Faithful(rules, st, target, upserts, roots, deletes)
    requires k <= |upserts| + |roots| + |deletes| && |newIds| == k
    requires Effect(st, (upserts + roots + deletes)[..k], newIds, s)
    ensures Rooted(rules, s, root)
    ensures forall id :: id in st && st[id].kind.Root? ==> id in s
  {
    forall id | id in st && st[id].kind.Root? ensures id in s && At(rules, s, id) == root {
      NeverDeleted(rules, st, target, upserts, roots, deletes, k, id);
    }
    var r :| r in st && At(rules, st, r) == root;
    assert r in s && At(rules, s, r) == root;
    forall id | id in s ensures s[id].kind.Root? <==> At(rules, s, id) == root {
      if id !in st {
        var f := CreatedAt(rules, st, target, root, upserts, roots, deletes, k, newIds, s, id);
      }
    }
  }

  /** A file that was not there is one of the target's files, at a path that was free. */
  lemma CreatedAt(rules: PathRules, st: State, target: seq<DefinitionFile>, root: string,
                  upserts: seq<Op>, roots: seq<Op>, deletes: seq<Op>, k: nat, newIds: seq<string>, s: State, id: string)
    returns (f: DefinitionFile)
    requires WellFormed(rules, target, root) && Faithful(rules, st, target, upserts, roots, deletes)
    requires k <= |upserts| + |roots| + |deletes| && |newIds| == k
    requires Effect(st, (upserts + roots + deletes)[..k], newIds, s)
    requires id in s && id !in st
    ensures f in target && !f.isRoot && At(rules, s, id) == f.path && Absent(rules, st, f.path)
    ensures rules.valid(s[id].path).Some? && s[id] == Stored(f.path, Default, f.content)
    ensures exists j :: 0 <= j < k && newIds[j] == id && (upserts + roots + deletes)[j] == CreateOp(f.path, f.content)
  {
    var prefix := (upserts + roots + deletes)[..k];
    PrefixParts(upserts, roots, deletes, k);
    var j :| 0 <= j < |prefix| && prefix[j].CreateOp? && newIds[j] == id;
    assert prefix[j] in prefix;
    f := DefinitionFile(prefix[j].path, false, prefix[j].content);
    assert (upserts + roots + deletes)[j] == CreateOp(f.path, f.content);
  }

  /** A path of the target that folds onto a different stored path, as after a rename of case only. */
  ghost predicate FoldsOntoStored(rules: PathRules, st: State, target: seq<DefinitionFile>) {
    exists id, f :: id in st && f in target && At(rules, st, id) != f.path && rules.fold(At(rules, st, id)) == rules.fold(f.path)
  }

  lemma PrefixUnambiguous(rules: PathRules, st: State, target: seq<DefinitionFile>, root: string,
                          upserts: seq<Op>, roots: seq<Op>, deletes: seq<Op>, k: nat, newIds: seq<string>, s: State)
    requires Unambiguous(rules, st) && Rooted(rules, st, root) && WellFormed(rules, target, root)
    requires Faithful(rules, st, target, upserts, roots, deletes)
    requires k <= |upserts| + |roots| + |deletes| && |newIds| == k && Distinct(newIds)
    requires Effect(st, (upserts + roots + deletes)[..k], newIds, s)
    requires !FoldsOntoStored(rules, st, target)
    ensures Unambiguous(rules, s)
  {
    forall id | id in s ensures rules.valid(s[id].path).Some? {
      if id !in st {
        var f := CreatedAt(rules, st, target, root, upserts, roots, deletes, k, newIds, s, id);
      }
    }
    forall a, b | a in s && b in s && a != b ensures rules.fold(At(rules, s, a)) != rules.fold(At(rules, s, b)) {
      if a in st && b in st {
      } else if a in st {
        var g := CreatedAt(rules, st, target, root, upserts, roots, deletes, k, newIds, s, b);
        assert At(rules, st, a) != g.path;
      } else if b in st {
        var f := CreatedAt(rules, st, target, root, upserts, roots, deletes, k, newIds, s, a);
        assert At(rules, st, b) != f.path;
      } else {
        TwoCreated(rules, st, target, root, upserts, roots, deletes, k, newIds, s, a, b);
      }
    }
  }

  lemma CreatesComeFirst(rules: PathRules, st: State, target: seq<DefinitionFile>, upserts: seq<Op>, roots: seq<Op>, deletes: seq<Op>)
    requires Sound(rules, st, target, upserts, roots, deletes)
    ensures var all := upserts + roots + deletes;
            forall i :: 0 <= i < |all| && all[i].CreateOp? ==> i < |upserts| && upserts[i] == all[i]
  {
    var all := upserts + roots + deletes;
    forall i | |upserts| <= i < |all| ensures !all[i].CreateOp? {
      if i < |upserts| + |roots| {
        assert all[i] == roots[i - |upserts|] && all[i] in roots;
      } else {
        assert all[i] == deletes[i - |upserts| - |roots|] && all[i] in deletes;
      }
    }
  }

  lemma TwoCreated(rules: PathRules, st: State, target: seq<DefinitionFile>, root: string,
                   upserts: seq<Op>, roots: seq<Op>, deletes: seq<Op>, k: nat, newIds: seq<string>, s: State, a: string, b: string)
    requires WellFormed(rules, target, root) && Faithful(rules, st, target, upserts, roots, deletes)
    requires k <= |upserts| + |roots| + |deletes| && |newIds| == k
    requires Effect(st, (upserts + roots + deletes)[..k], newIds, s)
    requires a in s && b in s && a !in st && b !in st && a != b
    ensures rules.fold(At(rules, s, a)) != rules.fold(At(rules, s, b))
  {
    var all := upserts + roots + deletes;
    var f := CreatedAt(rules, st, target, root, upserts, roots, deletes, k, newIds, s, a);
    var g := CreatedAt(rules, st, target, root, upserts, roots, deletes, k, newIds, s, b);
    var i :| 0 <= i < k && newIds[i] == a && all[i] == CreateOp(f.path, f.content);
    var j :| 0 <= j < k && newIds[j] == b && all[j] == CreateOp(g.path, g.content);
    CreatesComeFirst(rules, st, target, upserts, roots, deletes);
    assert i != j;
    PathsFoldApart(rules, target, root, f, g);
  }

  /**
   The set is free of colliding paths at every prefix exactly when no path of the target folds onto a
   different stored path: a rename that changes only case collides with itself after the upserts.
   */
  lemma PrefixesCollideExactly(rules: PathRules, st: State, target: seq<DefinitionFile>, root: string,
                               upserts: seq<Op>, roots: seq<Op>, deletes: seq<Op>, newIds: seq<string>)
    requires Unambiguous(rules, st) && Rooted(rules, st, root) && WellFormed(rules, target, root)
    requires Faithful(rules, st, target, upserts, roots, deletes)
    requires |newIds| == |upserts| + |roots| + |deletes| && FreshIds(st, newIds)
    ensures (forall k :: 0 <= k <= |newIds| ==> Unambiguous(rules, Exec(st, (upserts + roots + deletes)[..k], newIds[..k])))
            <==> !FoldsOntoStored(rules, st, target)
  {
    var all := upserts + roots + deletes;
    forall k | 0 <= k <= |newIds| ensures Effect(st, all[..k], newIds[..k], Exec(st, all[..k], newIds[..k])) {
      PrefixOnStored(rules, st, target, upserts, roots, deletes, k);
      assert FreshIds(st, newIds[..k]);
      ExecEffect(st, all[..k], newIds[..k]);
    }
    if FoldsOntoStored(rules, st, target) {
      var k := |upserts|;
      var s := Exec(st, all[..k], newIds[..k]);
      CollidesAfterUpserts(rules, st, target, root, upserts, roots, deletes, newIds[..k], s);
      assert !Unambiguous(rules, Exec(st, all[..k], newIds[..k]));
    } else {
      forall k | 0 <= k <= |newIds| ensures Unambiguous(rules, Exec(st, all[..k], newIds[..k])) {
        PrefixUnambiguous(rules, st, target, root, upserts, roots, deletes, k, newIds[..k], Exec(st, all[..k], newIds[..k]));
      }
    }
  }

  lemma CollidesAfterUpserts(rules: PathRules, st: State, target: seq<DefinitionFile>, root: string,
                             upserts: seq<Op>, roots: seq<Op>, deletes: seq<Op>, newIds: seq<string>, s: State)
    requires Unambiguous(rules, st) && Rooted(rules, st, root) && WellFormed(rules, target, root)
    requires Faithful(rules, st, target, upserts, roots, deletes)
    requires |newIds| == |upserts|
    requires Effect(st, (upserts + roots + deletes)[..|upserts|], newIds, s)
    requires FoldsOntoStored(rules, st, target)
    ensures !Unambiguous(rules, s)
  {
    var id, f :| id in st && f in target && At(rules, st, id) != f.path && rules.fold(At(rules, st, id)) == rules.fold(f.path);
    NeverDeleted(rules, st, target, upserts, roots, deletes, |upserts|, id);
    assert id in s && At(rules, s, id) == At(rules, st, id);
    assert Absent(rules, st, f.path);
    CreatedFile(rules, st, target, root, upserts, roots, deletes, |upserts|, newIds, s, f);
    var other :| other in s && At(rules, s, other) == f.path;
    assert other != id;
  }

  /** Nothing but the target is left. */
  ghost predicate HasOnly(rules: PathRules, s: State, target: seq<DefinitionFile>) {
    forall id :: id in s ==> DefinitionFile(At(rules, s, id), s[id].kind.Root?, s[id].content) in target
  }

  /** The stored set and the target are the same map from paths to roles and contents. */
  ghost predicate Meets(rules: PathRules, s: State, target: seq<DefinitionFile>) {
    Unambiguous(rules, s) && HasAll(rules, s, target) && HasOnly(rules, s, target)
  }

  lemma RunMeetsTarget(rules: PathRules, st: State, target: seq<DefinitionFile>, root: string,
                       upserts: seq<Op>, roots: seq<Op>, deletes: seq<Op>, newIds: seq<string>)
    requires Unambiguous(rules, st) && Rooted(rules, st, root) && WellFormed(rules, target, root)
    requires Faithful(rules, st, target, upserts, roots, deletes)
    requires |newIds| == |upserts| + |roots| + |deletes| && FreshIds(st, newIds)
    ensures Meets(rules, Exec(st, upserts + roots + deletes, newIds), target)
  {
    var all := upserts + roots + deletes;
    var k := |all|;
    var s := Exec(st, all, newIds);
    assert all[..k] == all;
    PrefixOnStored(rules, st, target, upserts, roots, deletes, k);
    ExecEffect(st, all, newIds);
    DependenciesFinal(rules, st, target, root, upserts, roots, deletes, k, newIds, s);
    forall id | id in s
      ensures DefinitionFile(At(rules, s, id), s[id].kind.Root?, s[id].content) in target
      ensures rules.valid(s[id].path).Some?
    {
      OnlyTarget(rules, st, target, root, upserts, roots, deletes, newIds, s, id);
    }
    forall a, b | a in s && b in s && a != b ensures rules.fold(At(rules, s, a)) != rules.fold(At(rules, s, b)) {
      FinalPathsDiffer(rules, st, target, root, upserts, roots, deletes, newIds, s, a, b);
    }
  }

  lemma OnlyTarget(rules: PathRules, st: State, target: seq<DefinitionFile>, root: string,
                   upserts: seq<Op>, roots: seq<Op>, deletes: seq<Op>, newIds: seq<string>, s: State, id: string)
    requires Unambiguous(rules, st) && Rooted(rules, st, root) && WellFormed(rules, target, root)
    requires Faithful(rules, st, target, upserts, roots, deletes)
    requires |newIds| == |upserts| + |roots| + |deletes|
    requires Effect(st, upserts + roots + deletes, newIds, s) && id in s
    ensures DefinitionFile(At(rules, s, id), s[id].kind.Root?, s[id].content) in target
    ensures rules.valid(s[id].path).Some?
  {
    var all := upserts + roots + deletes;
    var k := |all|;
    assert all[..k] == all;
    if id !in st {
      var f := CreatedAt(rules, st, target, root, upserts, roots, deletes, k, newIds, s, id);
    } else {
      var f := NotDeleted(rules, st, target, upserts, roots, deletes, id);
      KeptContent(rules, st, target, root, upserts, roots, deletes, k, f, id);
      KeptIsTarget(rules, st, target, root, s, f, id);
    }
  }

  lemma KeptIsTarget(rules: PathRules, st: State, target: seq<DefinitionFile>, root: string, s: State, f: DefinitionFile, id: string)
    requires Rooted(rules, st, root) && WellFormed(rules, target, root) && f in target
    requires id in st && id in s && At(rules, st, id) == f.path && s[id] == st[id].(content := f.content)
    ensures DefinitionFile(At(rules, s, id), s[id].kind.Root?, s[id].content) == f
  {
    assert s[id].path == st[id].path && s[id].kind == st[id].kind;
    assert st[id].kind.Root? <==> f.path == root;
  }

  lemma DeletedByPart(upserts: seq<Op>, roots: seq<Op>, deletes: seq<Op>, op: Op)
    requires op in deletes && op.DeleteOp?
    ensures Deleted(upserts + roots + deletes, op.id)
  {
    var i :| 0 <= i < |deletes| && deletes[i] == op;
    assert (upserts + roots + deletes)[|upserts| + |roots| + i] == op;
  }

  lemma NotDeleted(rules: PathRules, st: State, target: seq<DefinitionFile>,
                   upserts: seq<Op>, roots: seq<Op>, deletes: seq<Op>, id: string) returns (f: DefinitionFile)
    requires Faithful(rules, st, target, upserts, roots, deletes)
    requires id in st && !Deleted(upserts + roots + deletes, id)
    ensures f in target && f.path == At(rules, st, id)
  {
    if At(rules, st, id) !in Paths(target) {
      DeletedByPart(upserts, roots, deletes, DeleteOp(At(rules, st, id), id));
    }
    f :| f in target && f.path == At(rules, st, id);
  }

  lemma PathsFoldApart(rules: PathRules, target: seq<DefinitionFile>, root: string, f: DefinitionFile, g: DefinitionFile)
    requires WellFormed(rules, target, root) && f in target && g in target && f.path != g.path
    ensures rules.fold(f.path) != rules.fold(g.path)
  {
    var i :| 0 <= i < |target| && target[i] == f;
    var j :| 0 <= j < |target| && target[j] == g;
    assert i < j || j < i;
  }

  lemma FinalPathsDiffer(rules: PathRules, st: State, target: seq<DefinitionFile>, root: string,
                         upserts: seq<Op>, roots: seq<Op>, deletes: seq<Op>, newIds: seq<string>, s: State, a: string, b: string)
    requires Unambiguous(rules, st) && WellFormed(rules, target, root)
    requires Faithful(rules, st, target, upserts, roots, deletes)
    requires |newIds| == |upserts| + |roots| + |deletes|
    requires Effect(st, upserts + roots + deletes, newIds, s) && HasOnly(rules, s, target)
    requires a in s && b in s && a != b
    ensures rules.fold(At(rules, s, a)) != rules.fold(At(rules, s, b))
  {
    var k := |upserts| + |roots| + |deletes|;
    assert (upserts + roots + deletes)[..k] == upserts + roots + deletes;
    if a !in st && b !in st {
      TwoCreated(rules, st, target, root, upserts, roots, deletes, k, newIds, s, a, b);
    } else {
      if a !in st {
        var f := CreatedAt(rules, st, target, root, upserts, roots, deletes, k, newIds, s, a);
      }
      if b !in st {
        var f := CreatedAt(rules, st, target, root, upserts, roots, deletes, k, newIds, s, b);
      }
      assert At(rules, s, a) != At(rules, s, b);
      PathsFoldApart(rules, target, root, DefinitionFile(At(rules, s, a), s[a].kind.Root?, s[a].content),
                     DefinitionFile(At(rules, s, b), s[b].kind.Root?, s[b].content));
    }
  }
}
