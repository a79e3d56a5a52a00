/**
 The plan computed from a listing is a faithful difference to the target, so running it reaches the
 target, from the stored set and again from every crash point.
 */
module SpecPlan {
  import opened Wrappers
  import opened Ordering
  import opened SpecReconcile
  import opened SpecRecovery

  /** The listing and the contents read back from the server describe the stored set. */
  ghost predicate Lists(cloud: seq<CloudFile>, contents: map<string, string>, st: State) {
    && (forall i, j :: 0 <= i < j < |cloud| ==> cloud[i].id != cloud[j].id)
    && (forall m :: m in cloud ==> m.id in st && st[m.id].path == m.path && st[m.id].kind == m.kind)
    && (forall id :: id in st ==> CloudFile(id, st[id].path, st[id].kind) in cloud)
    && (forall id :: id in st ==> id in contents && contents[id] == st[id].content)
  }

  // ---------- The two indexes ----------

  lemma {:induction false} ByPathMeaning(rules: PathRules, cloud: seq<CloudFile>)
    ensures forall m :: m in cloud ==> Norm(rules, m.path) in ByPath(rules, cloud)
    ensures forall p :: p in ByPath(rules, cloud) ==> ByPath(rules, cloud)[p] in cloud && Norm(rules, ByPath(rules, cloud)[p].path) == p
  {
    if cloud != [] {
      ByPathMeaning(rules, cloud[..|cloud| - 1]);
      assert cloud == cloud[..|cloud| - 1] + [cloud[|cloud| - 1]];
    }
  }

  lemma {:induction false} ByIdMeaning(cloud: seq<CloudFile>)
    ensures forall m :: m in cloud ==> m.id in ById(cloud)
    ensures forall id :: id in ById(cloud) ==> ById(cloud)[id] in cloud && ById(cloud)[id].id == id
  {
    if cloud != [] {
      ByIdMeaning(cloud[..|cloud| - 1]);
      assert cloud == cloud[..|cloud| - 1] + [cloud[|cloud| - 1]];
    }
  }

  ghost predicate IndexesPaths(rules: PathRules, st: State, byPath: map<string, CloudFile>) {
    && (forall id :: id in st ==> At(rules, st, id) in byPath && byPath[At(rules, st, id)].id == id)
    && (forall p :: p in byPath ==> byPath[p].id in st && At(rules, st, byPath[p].id) == p)
  }

  ghost predicate IndexesIds(st: State, byId: map<string, CloudFile>) {
    forall id :: id in st ==> id in byId && byId[id] == CloudFile(id, st[id].path, st[id].kind)
  }

  lemma Indexes(rules: PathRules, cloud: seq<CloudFile>, contents: map<string, string>, st: State)
    requires Lists(cloud, contents, st) && Unambiguous(rules, st)
    ensures IndexesPaths(rules, st, ByPath(rules, cloud)) && IndexesIds(st, ById(cloud))
  {
    ByPathMeaning(rules, cloud);
    ByIdMeaning(cloud);
    forall id | id in st ensures At(rules, st, id) in ByPath(rules, cloud) && ByPath(rules, cloud)[At(rules, st, id)].id == id {
      assert CloudFile(id, st[id].path, st[id].kind) in cloud;
      var other := ByPath(rules, cloud)[At(rules, st, id)].id;
      assert At(rules, st, other) == At(rules, st, id);
    }
    forall id | id in st ensures id in ById(cloud) && ById(cloud)[id] == CloudFile(id, st[id].path, st[id].kind) {
      assert CloudFile(id, st[id].path, st[id].kind) in cloud;
    }
  }

  lemma ListingCollidesExactly(rules: PathRules, cloud: seq<CloudFile>, contents: map<string, string>, st: State)
    requires Lists(cloud, contents, st)
    ensures Collision(rules, cloud, {}).None? <==> Unambiguous(rules, st)
  {
    CollisionExact(rules, cloud, {});
    if Unambiguous(rules, st) {
      forall i, j | 0 <= i < j < |cloud|
        ensures rules.fold(Norm(rules, cloud[i].path)) != rules.fold(Norm(rules, cloud[j].path))
      {
        assert cloud[i] in cloud && cloud[j] in cloud;
        assert At(rules, st, cloud[i].id) == Norm(rules, cloud[i].path) && At(rules, st, cloud[j].id) == Norm(rules, cloud[j].path);
      }
      forall i | 0 <= i < |cloud| ensures rules.valid(cloud[i].path).Some? {
        assert cloud[i] in cloud;
      }
    }
    if CollisionFree(rules, cloud) {
      forall a, b | a in st && b in st && a != b ensures rules.fold(At(rules, st, a)) != rules.fold(At(rules, st, b)) {
        var i :| 0 <= i < |cloud| && cloud[i] == CloudFile(a, st[a].path, st[a].kind);
        var j :| 0 <= j < |cloud| && cloud[j] == CloudFile(b, st[b].path, st[b].kind);
        assert i < j || j < i;
      }
      forall id | id in st ensures rules.valid(st[id].path).Some? {
        var i :| 0 <= i < |cloud| && cloud[i] == CloudFile(id, st[id].path, st[id].kind);
      }
    }
  }

  // ---------- What the two planning loops find ----------

  ghost predicate RootIsMissing(files: seq<DefinitionFile>, byPath: map<string, CloudFile>) {
    exists f :: f in files && f.isRoot && f.path !in byPath
  }

  /** Which files become creates and updates. */
  ghost predicate UpsertsSay(files: seq<DefinitionFile>, byPath: map<string, CloudFile>, contents: map<string, string>,
                             creates: seq<Create>, updates: seq<Update>)
  {
    && (forall c :: c in creates ==> c.path !in byPath && DefinitionFile(c.path, false, c.content) in files)
    && (forall f :: f in files && f.path !in byPath ==> Create(f.path, f.content) in creates)
    && (forall u :: u in updates ==> exists f :: f in files && f.path in byPath && u == Update(byPath[f.path].id, f.content)
                                                 && u.id in contents && contents[u.id] != f.content)
    && (forall f :: f in files && f.path in byPath && byPath[f.path].id in contents && contents[byPath[f.path].id] != f.content
          ==> Update(byPath[f.path].id, f.content) in updates)
    && (forall i, j :: 0 <= i < j < |creates| ==> creates[i].path != creates[j].path)
    && (forall i, j :: 0 <= i < j < |updates| ==> updates[i].id != updates[j].id)
  }

  lemma {:induction false} UpsertsMeaning(files: seq<DefinitionFile>, byPath: map<string, CloudFile>, contents: map<string, string>)
    requires forall p :: p in byPath ==> byPath[p].id in contents
    requires forall p, q :: p in byPath && q in byPath && byPath[p].id == byPath[q].id ==> p == q
    requires forall i, j :: 0 <= i < j < |files| ==> files[i].path != files[j].path
    ensures var r := Upserts(files, byPath, contents);
            if RootIsMissing(files, byPath) then r == Failure(RootPathChange)
            else r.Success? && UpsertsSay(files, byPath, contents, r.value.0, r.value.1)
  {
    if files != [] {
      var before := files[..|files| - 1];
      var file := files[|files| - 1];
      assert files == before + [file];
      UpsertsMeaning(before, byPath, contents);
      if !RootIsMissing(before, byPath) && (file.path in byPath || !file.isRoot) {
        var (creates, updates) := Upserts(before, byPath, contents).value;
        assert !RootIsMissing(files, byPath);
        UpsertsSnoc(before, file, byPath, contents, creates, updates);
      } else {
        assert file in files;
        assert RootIsMissing(files, byPath);
      }
    }
  }

  lemma UpsertsSnoc(before: seq<DefinitionFile>, file: DefinitionFile, byPath: map<string, CloudFile>, contents: map<string, string>,
                    creates: seq<Create>, updates: seq<Update>)
    requires forall p :: p in byPath ==> byPath[p].id in contents
    requires forall p, q :: p in byPath && q in byPath && byPath[p].id == byPath[q].id ==> p == q
    requires forall f :: f in before ==> f.path != file.path
    requires file.path in byPath || !file.isRoot
    requires UpsertsSay(before, byPath, contents, creates, updates)
    ensures file.path !in byPath ==>
              UpsertsSay(before + [file], byPath, contents, creates + [Create(file.path, file.content)], updates)
    ensures file.path in byPath && contents[byPath[file.path].id] != file.content ==>
              UpsertsSay(before + [file], byPath, contents, creates, updates + [Update(byPath[file.path].id, file.content)])
    ensures file.path in byPath && contents[byPath[file.path].id] == file.content ==>
              UpsertsSay(before + [file], byPath, contents, creates, updates)
  {
    var files := before + [file];
    assert file in files;
    assert forall f :: f in files <==> f in before || f == file;
    assert forall c :: c in creates ==> c.path != file.path;
    if file.path in byPath {
      assert forall u :: u in updates ==> u.id != byPath[file.path].id;
    }
  }

  ghost predicate RootIsStale(rules: PathRules, cloud: seq<CloudFile>, targetPaths: set<string>) {
    exists m :: m in cloud && m.kind.Root? && Norm(rules, m.path) !in targetPaths
  }

  lemma {:induction false} DeletesMeaning(rules: PathRules, cloud: seq<CloudFile>, targetPaths: set<string>)
    ensures var r := Deletes(rules, cloud, targetPaths);
            if RootIsStale(rules, cloud, targetPaths) then r == Failure(RootPathChange)
            else
              && r.Success?
              && (forall id :: id in r.value ==> exists m :: m in cloud && m.id == id && Norm(rules, m.path) !in targetPaths)
              && (forall m :: m in cloud && Norm(rules, m.path) !in targetPaths ==> m.id in r.value)
  {
    if cloud != [] {
      var before := cloud[..|cloud| - 1];
      var meta := cloud[|cloud| - 1];
      assert cloud == before + [meta];
      DeletesMeaning(rules, before, targetPaths);
      assert meta in cloud;
      assert forall m :: m in cloud <==> m in before || m == meta;
    }
  }

  // ---------- The plan ----------

  lemma SortedTarget(rules: PathRules, target: seq<DefinitionFile>, root: string)
    requires WellFormed(rules, target, root)
    ensures var files := SortBy(target, PathLeq);
            && (forall f :: f in files <==> f in target)
            && (forall i, j :: 0 <= i < j < |files| ==> files[i].path != files[j].path)
  {
    var files := SortBy(target, PathLeq);
    SortKeeps(target, PathLeq);
    OneFilePerPath(rules, target, root);
    assert Distinct(target);
    DistinctRearranged(target, files);
    forall i, j | 0 <= i < j < |files| ensures files[i].path != files[j].path {
      assert files[i] in files && files[j] in files;
    }
  }

  /**
   Planning fails exactly when the listed paths collide, the target's root is not stored or the stored
   root is not in the target.
   */
  lemma PlanFailsExactly(rules: PathRules, cloud: seq<CloudFile>, contents: map<string, string>, st: State,
                         target: seq<DefinitionFile>, root: string, targetRoot: string)
    requires Lists(cloud, contents, st) && Rooted(rules, st, root) && WellFormed(rules, target, targetRoot)
    ensures PlanOf(rules, cloud, contents, target).Failure?
            <==> !Unambiguous(rules, st) || Absent(rules, st, targetRoot) || root !in Paths(target)
    ensures Unambiguous(rules, st) && PlanOf(rules, cloud, contents, target).Failure? ==>
              PlanOf(rules, cloud, contents, target) == Failure(RootPathChange)
  {
    ListingCollidesExactly(rules, cloud, contents, st);
    if Unambiguous(rules, st) {
      var files := SortBy(target, PathLeq);
      Indexes(rules, cloud, contents, st);
      SortedTarget(rules, target, targetRoot);
      UpsertsMeaning(files, ByPath(rules, cloud), contents);
      MissingRoot(rules, st, target, targetRoot, files, ByPath(rules, cloud));
      DeletesMeaning(rules, SortBy(cloud, CloudPathLeq), Paths(target));
      StaleRoot(rules, cloud, contents, st, target, root);
    }
  }

  lemma MissingRoot(rules: PathRules, st: State, target: seq<DefinitionFile>, targetRoot: string,
                    files: seq<DefinitionFile>, byPath: map<string, CloudFile>)
    requires IndexesPaths(rules, st, byPath) && WellFormed(rules, target, targetRoot)
    requires forall f :: f in files <==> f in target
    ensures RootIsMissing(files, byPath) <==> Absent(rules, st, targetRoot)
  {
    var f :| f in target && f.path == targetRoot;
    assert f in files && f.isRoot;
  }

  lemma StaleRoot(rules: PathRules, cloud: seq<CloudFile>, contents: map<string, string>, st: State,
                  target: seq<DefinitionFile>, root: string)
    requires Lists(cloud, contents, st) && Rooted(rules, st, root)
    ensures RootIsStale(rules, SortBy(cloud, CloudPathLeq), Paths(target)) <==> root !in Paths(target)
  {
    SortKeeps(cloud, CloudPathLeq);
    var id :| id in st && At(rules, st, id) == root;
    assert CloudFile(id, st[id].path, st[id].kind) in SortBy(cloud, CloudPathLeq);
  }

  ghost predicate CreatesSay(rules: PathRules, st: State, target: seq<DefinitionFile>, creates: seq<Create>) {
    && (forall c :: c in creates ==> Absent(rules, st, c.path) && DefinitionFile(c.path, false, c.content) in target)
    && (forall f :: f in target && Absent(rules, st, f.path) ==> Create(f.path, f.content) in creates)
    && (forall i, j :: 0 <= i < j < |creates| ==> creates[i].path != creates[j].path)
  }

  ghost predicate UpdatesSay(rules: PathRules, st: State, target: seq<DefinitionFile>, root: string, updates: seq<Update>) {
    && (forall u :: u in updates ==> u.id in st && st[u.id].content != u.content
                                     && DefinitionFile(At(rules, st, u.id), At(rules, st, u.id) == root, u.content) in target)
    && (forall f, id :: f in target && id in st && At(rules, st, id) == f.path && st[id].content != f.content ==>
          Update(id, f.content) in updates)
    && (forall i, j :: 0 <= i < j < |updates| ==> updates[i].id != updates[j].id)
  }

  ghost predicate DeletesSay(rules: PathRules, st: State, target: seq<DefinitionFile>, deletes: seq<string>) {
    && (forall id :: id in deletes ==> id in st && At(rules, st, id) !in Paths(target))
    && (forall id :: id in st && At(rules, st, id) !in Paths(target) ==> id in deletes)
  }

  /** The plan in terms of the stored set. */
  ghost predicate PlanSays(rules: PathRules, st: State, target: seq<DefinitionFile>, root: string, plan: Plan) {
    && CreatesSay(rules, st, target, plan.create)
    && UpdatesSay(rules, st, target, root, plan.update)
    && DeletesSay(rules, st, target, plan.delete)
  }

  lemma CreatesMeaning(rules: PathRules, st: State, target: seq<DefinitionFile>, files: seq<DefinitionFile>,
                       byPath: map<string, CloudFile>, contents: map<string, string>, creates: seq<Create>, updates: seq<Update>)
    requires IndexesPaths(rules, st, byPath) && UpsertsSay(files, byPath, contents, creates, updates)
    requires forall f :: f in files <==> f in target
    ensures CreatesSay(rules, st, target, creates)
  {
  }

  lemma UpdatesMeaning(rules: PathRules, st: State, target: seq<DefinitionFile>, root: string, files: seq<DefinitionFile>,
                       byPath: map<string, CloudFile>, contents: map<string, string>, creates: seq<Create>, updates: seq<Update>)
    requires WellFormed(rules, target, root)
    requires IndexesPaths(rules, st, byPath) && UpsertsSay(files, byPath, contents, creates, updates)
    requires forall f :: f in files <==> f in target
    requires forall id :: id in st ==> id in contents && contents[id] == st[id].content
    ensures UpdatesSay(rules, st, target, root, updates)
  {
    forall u | u in updates
      ensures u.id in st && st[u.id].content != u.content
              && DefinitionFile(At(rules, st, u.id), At(rules, st, u.id) == root, u.content) in target
    {
      var f :| f in files && f.path in byPath && u == Update(byPath[f.path].id, f.content) && contents[u.id] != f.content;
      assert f == DefinitionFile(At(rules, st, u.id), At(rules, st, u.id) == root, u.content);
    }
  }

  lemma PlanMeaning(rules: PathRules, cloud: seq<CloudFile>, contents: map<string, string>, st: State,
                    target: seq<DefinitionFile>, root: string)
    requires Lists(cloud, contents, st) && Unambiguous(rules, st) && WellFormed(rules, target, root)
    requires PlanOf(rules, cloud, contents, target).Success?
    ensures PlanSays(rules, st, target, root, PlanOf(rules, cloud, contents, target).value)
  {
    var plan := PlanOf(rules, cloud, contents, target).value;
    var files := SortBy(target, PathLeq);
    var byPath := ByPath(rules, cloud);
    Indexes(rules, cloud, contents, st);
    SortedTarget(rules, target, root);
    UpsertsMeaning(files, byPath, contents);
    CreatesMeaning(rules, st, target, files, byPath, contents, plan.create, plan.update);
    UpdatesMeaning(rules, st, target, root, files, byPath, contents, plan.create, plan.update);
    DeletesPlanned(rules, cloud, contents, st, target, plan.delete);
  }

  lemma DeletesPlanned(rules: PathRules, cloud: seq<CloudFile>, contents: map<string, string>, st: State,
                       target: seq<DefinitionFile>, deletes: seq<string>)
    requires Lists(cloud, contents, st) && Deletes(rules, SortBy(cloud, CloudPathLeq), Paths(target)) == Success(deletes)
    ensures DeletesSay(rules, st, target, deletes)
  {
    SortKeeps(cloud, CloudPathLeq);
    DeletesMeaning(rules, SortBy(cloud, CloudPathLeq), Paths(target));
    forall id | id in st && At(rules, st, id) !in Paths(target) ensures id in deletes {
      assert CloudFile(id, st[id].path, st[id].kind) in cloud;
    }
  }

  lemma OpsOfPlan(rules: PathRules, byId: map<string, CloudFile>, plan: Plan)
    ensures forall op :: op in CreateOps(plan) ==> op.CreateOp? && Create(op.path, op.content) in plan.create
    ensures forall c :: c in plan.create ==> CreateOp(c.path, c.content) in CreateOps(plan)
    ensures forall op :: op in UpdateOps(rules, byId, plan) ==>
              op.UpdateOp? && Update(op.id, op.content) in plan.update && op.path == PathKey(rules, byId, op.id)
    ensures forall u :: u in plan.update ==> UpdateOp(PathKey(rules, byId, u.id), u.id, u.content) in UpdateOps(rules, byId, plan)
    ensures forall op :: op in DeleteOps(rules, byId, plan) ==>
              op.DeleteOp? && op.id in plan.delete && op.path == PathKey(rules, byId, op.id)
    ensures forall id :: id in plan.delete ==> DeleteOp(PathKey(rules, byId, id), id) in DeleteOps(rules, byId, plan)
  {
    forall c | c in plan.create ensures CreateOp(c.path, c.content) in CreateOps(plan) {
      var i :| 0 <= i < |plan.create| && plan.create[i] == c;
      assert CreateOps(plan)[i] == CreateOp(c.path, c.content);
    }
    forall u | u in plan.update
      ensures UpdateOp(PathKey(rules, byId, u.id), u.id, u.content) in UpdateOps(rules, byId, plan)
    {
      var i :| 0 <= i < |plan.update| && plan.update[i] == u;
      assert UpdateOps(rules, byId, plan)[i] == UpdateOp(PathKey(rules, byId, u.id), u.id, u.content);
    }
    forall id | id in plan.delete ensures DeleteOp(PathKey(rules, byId, id), id) in DeleteOps(rules, byId, plan) {
      var i :| 0 <= i < |plan.delete| && plan.delete[i] == id;
      assert DeleteOps(rules, byId, plan)[i] == DeleteOp(PathKey(rules, byId, id), id);
    }
  }

  lemma {:induction false} SelectDistinct(byId: map<string, CloudFile>, ops: seq<Op>, onRoot: bool)
    requires Distinct(ops)
    ensures Distinct(Select(byId, ops, onRoot))
  {
    if ops != [] {
      var shorter := ops[..|ops| - 1];
      SelectDistinct(byId, shorter, onRoot);
      SelectMembers(byId, shorter, onRoot);
    }
  }

  lemma UpdateIdsDiffer(rules: PathRules, byId: map<string, CloudFile>, plan: Plan)
    requires forall i, j :: 0 <= i < j < |plan.update| ==> plan.update[i].id != plan.update[j].id
    ensures Distinct(UpdateOps(rules, byId, plan))
    ensures forall a, b :: a in UpdateOps(rules, byId, plan) && b in UpdateOps(rules, byId, plan) && a.id == b.id ==> a == b
  {
    var updates := UpdateOps(rules, byId, plan);
    OpsOfPlan(rules, byId, plan);
    forall a, b | a in updates && b in updates && a.id == b.id ensures a == b {
      var i :| 0 <= i < |updates| && updates[i] == a;
      var j :| 0 <= j < |updates| && updates[j] == b;
      assert plan.update[i].id == a.id && plan.update[j].id == b.id;
      assert i == j || i < j || j < i;
    }
  }

  lemma SameFile(rules: PathRules, st: State, a: string, b: string)
    requires Unambiguous(rules, st) && a in st && b in st && At(rules, st, a) == At(rules, st, b)
    ensures a == b
  {
    assert rules.fold(At(rules, st, a)) == rules.fold(At(rules, st, b));
  }

  lemma RootOpsAreAtRoot(rules: PathRules, st: State, target: seq<DefinitionFile>, root: string, byId: map<string, CloudFile>, plan: Plan)
    requires Rooted(rules, st, root) && IndexesIds(st, byId) && PlanSays(rules, st, target, root, plan)
    ensures forall op :: op in RootUpdates(rules, byId, plan) ==> op.UpdateOp? && op.id in st && At(rules, st, op.id) == root
  {
    RootPart(rules, byId, plan);
    forall op | op in RootUpdates(rules, byId, plan) ensures op.UpdateOp? && op.id in st && At(rules, st, op.id) == root {
      assert Update(op.id, op.content) in plan.update && OnRoot(byId, op);
      assert byId[op.id] == CloudFile(op.id, st[op.id].path, st[op.id].kind);
    }
  }

  /** Updates have distinct ids and one stored file is the root, so at most one update is on the root. */
  lemma OneRootUpdate(rules: PathRules, st: State, target: seq<DefinitionFile>, root: string, byId: map<string, CloudFile>, plan: Plan)
    requires Unambiguous(rules, st) && Rooted(rules, st, root) && IndexesIds(st, byId) && PlanSays(rules, st, target, root, plan)
    ensures |RootUpdates(rules, byId, plan)| <= 1
  {
    var roots := RootUpdates(rules, byId, plan);
    RootOpsAreAtRoot(rules, st, target, root, byId, plan);
    RootOpsDiffer(rules, byId, plan);
    if |roots| > 1 {
      SameFile(rules, st, roots[0].id, roots[1].id);
      assert false;
    }
  }

  lemma RootOpsDiffer(rules: PathRules, byId: map<string, CloudFile>, plan: Plan)
    requires forall i, j :: 0 <= i < j < |plan.update| ==> plan.update[i].id != plan.update[j].id
    ensures var roots := RootUpdates(rules, byId, plan);
            && (forall i :: 0 <= i < |roots| ==> roots[i].UpdateOp?)
            && (forall i, j :: 0 <= i < j < |roots| ==> roots[i].id != roots[j].id)
  {
    var updates := UpdateOps(rules, byId, plan);
    var roots := Select(byId, updates, true);
    UpdateIdsDiffer(rules, byId, plan);
    SelectDistinct(byId, updates, true);
    SelectSplits(byId, updates);
    forall i | 0 <= i < |roots| ensures roots[i].UpdateOp? && roots[i] in updates {
      assert roots[i] in roots && OnRoot(byId, roots[i]);
    }
  }

  lemma CreatesDistinct(ops: seq<Op>, sorted: seq<Op>)
    requires Distinct(ops) && multiset(sorted) == multiset(ops)
    requires forall i, j :: 0 <= i < j < |ops| && ops[i].CreateOp? && ops[j].CreateOp? ==> ops[i].path != ops[j].path
    ensures forall i, j :: 0 <= i < j < |sorted| && sorted[i].CreateOp? && sorted[j].CreateOp? ==> sorted[i].path != sorted[j].path
  {
    DistinctRearranged(ops, sorted);
    forall i, j | 0 <= i < j < |sorted| && sorted[i].CreateOp? && sorted[j].CreateOp? ensures sorted[i].path != sorted[j].path {
      assert sorted[i] in multiset(sorted) && sorted[j] in multiset(sorted);
      var m :| 0 <= m < |ops| && ops[m] == sorted[i];
      var n :| 0 <= n < |ops| && ops[n] == sorted[j];
      assert m < n || n < m;
    }
  }

  lemma SortedUpsertsDistinct(rules: PathRules, byId: map<string, CloudFile>, plan: Plan)
    requires forall i, j :: 0 <= i < j < |plan.create| ==> plan.create[i].path != plan.create[j].path
    requires forall i, j :: 0 <= i < j < |plan.update| ==> plan.update[i].id != plan.update[j].id
    ensures var upserts := SortBy(NonRootUpserts(rules, byId, plan), OpPathLeq);
            forall i, j :: 0 <= i < j < |upserts| && upserts[i].CreateOp? && upserts[j].CreateOp? ==> upserts[i].path != upserts[j].path
  {
    var updates := UpdateOps(rules, byId, plan);
    var others := NonRootUpserts(rules, byId, plan);
    OpsOfPlan(rules, byId, plan);
    UpdateIdsDiffer(rules, byId, plan);
    SelectDistinct(byId, updates, false);
    SelectSplits(byId, updates);
    forall m | |plan.create| <= m < |others| ensures others[m].UpdateOp? {
      assert others[m] in Select(byId, updates, false);
    }
    SortKeeps(others, OpPathLeq);
    CreatesDistinct(others, SortBy(others, OpPathLeq));
  }

  /** The three parts of the schedule, member by member. */
  ghost predicate Parts(rules: PathRules, byId: map<string, CloudFile>, plan: Plan, upserts: seq<Op>, roots: seq<Op>, deletes: seq<Op>) {
    && (forall op :: op in upserts <==>
          || (op.CreateOp? && Create(op.path, op.content) in plan.create)
          || (op.UpdateOp? && Update(op.id, op.content) in plan.update && op.path == PathKey(rules, byId, op.id) && !OnRoot(byId, op)))
    && (forall op :: op in roots <==>
          op.UpdateOp? && Update(op.id, op.content) in plan.update && op.path == PathKey(rules, byId, op.id) && OnRoot(byId, op))
    && (forall op :: op in deletes <==> op.DeleteOp? && op.id in plan.delete && op.path == PathKey(rules, byId, op.id))
  }

  lemma SortedUnion(left: seq<Op>, right: seq<Op>)
    ensures forall op :: op in SortBy(left + right, OpPathLeq) <==> op in left || op in right
  {
    SortKeeps(left + right, OpPathLeq);
  }

  lemma UpsertPart(rules: PathRules, byId: map<string, CloudFile>, plan: Plan)
    ensures forall op :: op in SortBy(NonRootUpserts(rules, byId, plan), OpPathLeq) <==>
              || (op.CreateOp? && Create(op.path, op.content) in plan.create)
              || (op.UpdateOp? && Update(op.id, op.content) in plan.update && op.path == PathKey(rules, byId, op.id) && !OnRoot(byId, op))
  {
    var creates, updates := CreateOps(plan), UpdateOps(rules, byId, plan);
    OpsOfPlan(rules, byId, plan);
    SelectSplits(byId, updates);
    SortedUnion(creates, Select(byId, updates, false));
    forall op: Op
      ensures op in creates <==> op.CreateOp? && Create(op.path, op.content) in plan.create
      ensures op in updates <==> op.UpdateOp? && Update(op.id, op.content) in plan.update && op.path == PathKey(rules, byId, op.id)
    {
      if op.CreateOp? && Create(op.path, op.content) in plan.create {
        assert CreateOp(op.path, op.content) in creates;
      } else if op.UpdateOp? && Update(op.id, op.content) in plan.update {
        assert UpdateOp(PathKey(rules, byId, op.id), op.id, op.content) in updates;
      }
    }
  }

  lemma RootPart(rules: PathRules, byId: map<string, CloudFile>, plan: Plan)
    ensures forall op :: op in RootUpdates(rules, byId, plan) <==>
              op.UpdateOp? && Update(op.id, op.content) in plan.update && op.path == PathKey(rules, byId, op.id) && OnRoot(byId, op)
  {
    var updates := UpdateOps(rules, byId, plan);
    OpsOfPlan(rules, byId, plan);
    SelectSplits(byId, updates);
    forall op: Op | op.UpdateOp? && Update(op.id, op.content) in plan.update && op.path == PathKey(rules, byId, op.id) ensures op in updates {
      assert UpdateOp(PathKey(rules, byId, op.id), op.id, op.content) in updates;
    }
  }

  lemma DeletePart(rules: PathRules, byId: map<string, CloudFile>, plan: Plan)
    ensures forall op :: op in SortBy(DeleteOps(rules, byId, plan), OpPathLeq) <==>
              op.DeleteOp? && op.id in plan.delete && op.path == PathKey(rules, byId, op.id)
  {
    OpsOfPlan(rules, byId, plan);
    SortKeeps(DeleteOps(rules, byId, plan), OpPathLeq);
  }

  lemma PartsOfPlan(rules: PathRules, byId: map<string, CloudFile>, plan: Plan)
    requires |RootUpdates(rules, byId, plan)| <= 1
    ensures Parts(rules, byId, plan, SortBy(NonRootUpserts(rules, byId, plan), OpPathLeq),
                  LastOnly(RootUpdates(rules, byId, plan)), SortBy(DeleteOps(rules, byId, plan), OpPathLeq))
  {
    UpsertPart(rules, byId, plan);
    RootPart(rules, byId, plan);
    DeletePart(rules, byId, plan);
    assert LastOnly(RootUpdates(rules, byId, plan)) == RootUpdates(rules, byId, plan);
  }

  lemma PartsAreSound(rules: PathRules, st: State, target: seq<DefinitionFile>, root: string, byId: map<string, CloudFile>, plan: Plan,
                      upserts: seq<Op>, roots: seq<Op>, deletes: seq<Op>)
    requires Rooted(rules, st, root) && WellFormed(rules, target, root) && IndexesIds(st, byId)
    requires PlanSays(rules, st, target, root, plan) && Parts(rules, byId, plan, upserts, roots, deletes)
    ensures Sound(rules, st, target, upserts, roots, deletes)
  {
    forall op | op in upserts && !op.CreateOp?
      ensures op.id in st && st[op.id].kind.Default? && DefinitionFile(At(rules, st, op.id), false, op.content) in target
    {
      assert Update(op.id, op.content) in plan.update;
    }
    forall op | op in roots
      ensures op.id in st && st[op.id].kind.Root? && DefinitionFile(At(rules, st, op.id), true, op.content) in target
    {
      assert Update(op.id, op.content) in plan.update;
    }
  }

  lemma PartsAreComplete(rules: PathRules, st: State, target: seq<DefinitionFile>, root: string, byId: map<string, CloudFile>, plan: Plan,
                         upserts: seq<Op>, roots: seq<Op>, deletes: seq<Op>)
    requires Rooted(rules, st, root) && WellFormed(rules, target, root) && IndexesIds(st, byId)
    requires PlanSays(rules, st, target, root, plan) && Parts(rules, byId, plan, upserts, roots, deletes)
    ensures Complete(rules, st, target, upserts, roots, deletes)
  {
    forall f, id | f in target && id in st && At(rules, st, id) == f.path && st[id].content != f.content
      ensures UpdateOp(f.path, id, f.content) in if f.isRoot then roots else upserts
    {
      assert Update(id, f.content) in plan.update;
      assert OnRoot(byId, UpdateOp(f.path, id, f.content)) == f.isRoot;
    }
  }

  lemma PlanIsFaithful(rules: PathRules, st: State, target: seq<DefinitionFile>, root: string, byId: map<string, CloudFile>, plan: Plan,
                       upserts: seq<Op>, roots: seq<Op>, deletes: seq<Op>)
    requires Unambiguous(rules, st) && Rooted(rules, st, root) && WellFormed(rules, target, root)
    requires IndexesIds(st, byId) && PlanSays(rules, st, target, root, plan)
    requires upserts == SortBy(NonRootUpserts(rules, byId, plan), OpPathLeq)
    requires roots == LastOnly(RootUpdates(rules, byId, plan))
    requires deletes == SortBy(DeleteOps(rules, byId, plan), OpPathLeq)
    ensures Faithful(rules, st, target, upserts, roots, deletes)
  {
    OneRootUpdate(rules, st, target, root, byId, plan);
    SortedUpsertsDistinct(rules, byId, plan);
    assert Parts(rules, byId, plan, upserts, roots, deletes) by {
      PartsOfPlan(rules, byId, plan);
    }
    PartsAreSound(rules, st, target, root, byId, plan, upserts, roots, deletes);
    PartsAreComplete(rules, st, target, root, byId, plan, upserts, roots, deletes);
  }

  lemma PlanResolves(rules: PathRules, st: State, target: seq<DefinitionFile>, root: string, byId: map<string, CloudFile>, plan: Plan)
    requires Unambiguous(rules, st) && IndexesIds(st, byId) && PlanSays(rules, st, target, root, plan)
    ensures AllResolvable(rules, byId, plan)
  {
  }

  // ---------- The theorems ----------

  /**
   The operations come as dependencies in path order, the root, then deletes in path order; they are the
   plan's operations, none lost; and running them turns the stored set into the target.
   */
  lemma ReconcileMeetsTarget(rules: PathRules, cloud: seq<CloudFile>, contents: map<string, string>, st: State,
                             target: seq<DefinitionFile>, root: string, newIds: seq<string>)
    requires Lists(cloud, contents, st) && Unambiguous(rules, st) && Rooted(rules, st, root) && WellFormed(rules, target, root)
    requires FreshIds(st, newIds)
    ensures PlanOf(rules, cloud, contents, target).Success?
    ensures var byId, plan := ById(cloud), PlanOf(rules, cloud, contents, target).value;
            && AllResolvable(rules, byId, plan)
            && Sorted(SortBy(NonRootUpserts(rules, byId, plan), OpPathLeq), OpPathLeq)
            && Sorted(SortBy(DeleteOps(rules, byId, plan), OpPathLeq), OpPathLeq)
            && multiset(OrderedOps(rules, byId, plan))
                 == multiset(CreateOps(plan)) + multiset(UpdateOps(rules, byId, plan)) + multiset(DeleteOps(rules, byId, plan))
            && (|newIds| == |OrderedOps(rules, byId, plan)| ==> Meets(rules, Exec(st, OrderedOps(rules, byId, plan), newIds), target))
  {
    PlanFailsExactly(rules, cloud, contents, st, target, root, root);
    var byId, plan := ById(cloud), PlanOf(rules, cloud, contents, target).value;
    Indexes(rules, cloud, contents, st);
    PlanMeaning(rules, cloud, contents, st, target, root);
    var upserts := SortBy(NonRootUpserts(rules, byId, plan), OpPathLeq);
    var roots := LastOnly(RootUpdates(rules, byId, plan));
    var deletes := SortBy(DeleteOps(rules, byId, plan), OpPathLeq);
    PlanIsFaithful(rules, st, target, root, byId, plan, upserts, roots, deletes);
    PlanResolves(rules, st, target, root, byId, plan);
    OneRootUpdate(rules, st, target, root, byId, plan);
    OrderedOpsAreThePlan(rules, byId, plan);
    PathOrders();
    SortSorts(NonRootUpserts(rules, byId, plan), OpPathLeq);
    SortSorts(DeleteOps(rules, byId, plan), OpPathLeq);
    if |newIds| == |upserts| + |roots| + |deletes| {
      RunMeetsTarget(rules, st, target, root, upserts, roots, deletes, newIds);
    }
  }

  /** The run stopped after k of its calls. */
  ghost function Crashed(rules: PathRules, cloud: seq<CloudFile>, contents: map<string, string>, st: State,
                         target: seq<DefinitionFile>, newIds: seq<string>, k: nat): State
    requires PlanOf(rules, cloud, contents, target).Success?
    requires k <= |newIds| == |OrderedOps(rules, ById(cloud), PlanOf(rules, cloud, contents, target).value)|
  {
    Exec(st, OrderedOps(rules, ById(cloud), PlanOf(rules, cloud, contents, target).value)[..k], newIds[..k])
  }

  /**
   Every prefix of a reconcile is usable: the root is stored at its path, its content changes only after
   every dependency of the target is final, and nothing is deleted before the whole target is final.
   */
  lemma CrashIsUsable(rules: PathRules, cloud: seq<CloudFile>, contents: map<string, string>, st: State,
                      target: seq<DefinitionFile>, root: string, newIds: seq<string>, k: nat)
    requires Lists(cloud, contents, st) && Unambiguous(rules, st) && Rooted(rules, st, root) && WellFormed(rules, target, root)
    requires PlanOf(rules, cloud, contents, target).Success? && FreshIds(st, newIds)
    requires k <= |newIds| == |OrderedOps(rules, ById(cloud), PlanOf(rules, cloud, contents, target).value)|
    ensures var s := Crashed(rules, cloud, contents, st, target, newIds, k);
            && Rooted(rules, s, root)
            && (forall id :: id in st && st[id].kind.Root? ==> id in s)
            && ((exists id :: id in st && id in s && st[id].kind.Root? && s[id].content != st[id].content) ==> HasDependencies(rules, s, target))
            && ((exists id :: id in st && id !in s) ==> HasAll(rules, s, target))
  {
    var byId, plan := ById(cloud), PlanOf(rules, cloud, contents, target).value;
    Indexes(rules, cloud, contents, st);
    PlanMeaning(rules, cloud, contents, st, target, root);
    var upserts := SortBy(NonRootUpserts(rules, byId, plan), OpPathLeq);
    var roots := LastOnly(RootUpdates(rules, byId, plan));
    var deletes := SortBy(DeleteOps(rules, byId, plan), OpPathLeq);
    PlanIsFaithful(rules, st, target, root, byId, plan, upserts, roots, deletes);
    assert FreshIds(st, newIds[..k]);
    EveryPrefixIsUsable(rules, st, target, root, upserts, roots, deletes, k, newIds[..k]);
  }

  /**
   From the set that a crash left, planning toward any bundle with the same root path succeeds, whatever
   the crash point, exactly when no path of the target folds onto a different stored path.
   */
  lemma ReplanSucceedsExactly(rules: PathRules, cloud: seq<CloudFile>, contents: map<string, string>, st: State,
                              target: seq<DefinitionFile>, root: string, newIds: seq<string>, goal: seq<DefinitionFile>,
                              listings: seq<seq<CloudFile>>, readings: seq<map<string, string>>)
    requires Lists(cloud, contents, st) && Unambiguous(rules, st) && Rooted(rules, st, root)
    requires WellFormed(rules, target, root) && WellFormed(rules, goal, root)
    requires PlanOf(rules, cloud, contents, target).Success? && FreshIds(st, newIds)
    requires |newIds| == |OrderedOps(rules, ById(cloud), PlanOf(rules, cloud, contents, target).value)|
    requires |listings| == |readings| == |newIds| + 1
    requires forall k :: 0 <= k <= |newIds| ==> Lists(listings[k], readings[k], Crashed(rules, cloud, contents, st, target, newIds, k))
    ensures (forall k :: 0 <= k <= |newIds| ==> PlanOf(rules, listings[k], readings[k], goal).Success?)
            <==> !FoldsOntoStored(rules, st, target)
  {
    var byId, plan := ById(cloud), PlanOf(rules, cloud, contents, target).value;
    Indexes(rules, cloud, contents, st);
    PlanMeaning(rules, cloud, contents, st, target, root);
    var upserts := SortBy(NonRootUpserts(rules, byId, plan), OpPathLeq);
    var roots := LastOnly(RootUpdates(rules, byId, plan));
    var deletes := SortBy(DeleteOps(rules, byId, plan), OpPathLeq);
    PlanIsFaithful(rules, st, target, root, byId, plan, upserts, roots, deletes);
    PrefixesCollideExactly(rules, st, target, root, upserts, roots, deletes, newIds);
    forall k | 0 <= k <= |newIds|
      ensures PlanOf(rules, listings[k], readings[k], goal).Success? <==>
                Unambiguous(rules, Exec(st, (upserts + roots + deletes)[..k], newIds[..k]))
    {
      var s := Crashed(rules, cloud, contents, st, target, newIds, k);
      CrashIsUsable(rules, cloud, contents, st, target, root, newIds, k);
      RootIsThere(rules, s, goal, root);
      PlanFailsExactly(rules, listings[k], readings[k], s, goal, root, root);
    }
  }

  lemma RootIsThere(rules: PathRules, st: State, target: seq<DefinitionFile>, root: string)
    requires Rooted(rules, st, root) && WellFormed(rules, target, root)
    ensures !Absent(rules, st, root) && root in Paths(target)
  {
    var id :| id in st && At(rules, st, id) == root;
  }

  /** When the retry plans, running its plan reaches its goal, be it the old target or the snapshot taken before. */
  lemma RetryMeetsGoal(rules: PathRules, cloud: seq<CloudFile>, contents: map<string, string>, st: State,
                       target: seq<DefinitionFile>, root: string, newIds: seq<string>, k: nat,
                       listing: seq<CloudFile>, reading: map<string, string>, goal: seq<DefinitionFile>, retryIds: seq<string>)
    requires Lists(cloud, contents, st) && Unambiguous(rules, st) && Rooted(rules, st, root)
    requires WellFormed(rules, target, root) && WellFormed(rules, goal, root)
    requires PlanOf(rules, cloud, contents, target).Success? && FreshIds(st, newIds)
    requires k <= |newIds| == |OrderedOps(rules, ById(cloud), PlanOf(rules, cloud, contents, target).value)|
    requires Lists(listing, reading, Crashed(rules, cloud, contents, st, target, newIds, k))
    requires PlanOf(rules, listing, reading, goal).Success?
    requires FreshIds(Crashed(rules, cloud, contents, st, target, newIds, k), retryIds)
    requires |retryIds| == |OrderedOps(rules, ById(listing), PlanOf(rules, listing, reading, goal).value)|
    ensures var s := Crashed(rules, cloud, contents, st, target, newIds, k);
            Meets(rules, Exec(s, OrderedOps(rules, ById(listing), PlanOf(rules, listing, reading, goal).value), retryIds), goal)
  {
    var s := Crashed(rules, cloud, contents, st, target, newIds, k);
    CrashIsUsable(rules, cloud, contents, st, target, root, newIds, k);
    PlanFailsExactly(rules, listing, reading, s, goal, root, root);
    ReconcileMeetsTarget(rules, listing, reading, s, goal, root, retryIds);
  }

  /** A plan is empty exactly when the stored set already is the target. */
  lemma EmptyPlanExactlyAtTarget(rules: PathRules, cloud: seq<CloudFile>, contents: map<string, string>, st: State,
                                 target: seq<DefinitionFile>, root: string)
    requires Lists(cloud, contents, st) && Unambiguous(rules, st) && Rooted(rules, st, root) && WellFormed(rules, target, root)
    ensures PlanOf(rules, cloud, contents, target).Success?
    ensures !PlanHasMutations(PlanOf(rules, cloud, contents, target).value) <==> Meets(rules, st, target)
  {
    ReconcileMeetsTarget(rules, cloud, contents, st, target, root, []);
    var plan := PlanOf(rules, cloud, contents, target).value;
    if PlanHasMutations(plan) {
      PlanMeaning(rules, cloud, contents, st, target, root);
      MutationsMeanDifference(rules, st, target, root, plan);
    } else {
      assert OrderedOps(rules, ById(cloud), plan) == [];
    }
  }

  lemma MutationsMeanDifference(rules: PathRules, st: State, target: seq<DefinitionFile>, root: string, plan: Plan)
    requires WellFormed(rules, target, root) && PlanSays(rules, st, target, root, plan) && PlanHasMutations(plan)
    ensures !Meets(rules, st, target)
  {
    if plan.create != [] {
      assert plan.create[0] in plan.create;
      MissingFile(rules, st, target, plan.create[0]);
    } else if plan.update != [] {
      assert plan.update[0] in plan.update;
      DifferentFile(rules, st, target, root, plan.update[0]);
    } else {
      assert plan.delete[0] in plan.delete;
      ExtraFile(rules, st, target, plan.delete[0]);
    }
  }

  lemma MissingFile(rules: PathRules, st: State, target: seq<DefinitionFile>, c: Create)
    requires Absent(rules, st, c.path) && DefinitionFile(c.path, false, c.content) in target
    ensures !Meets(rules, st, target)
  {
    assert !HasFile(rules, st, DefinitionFile(c.path, false, c.content));
  }

  lemma DifferentFile(rules: PathRules, st: State, target: seq<DefinitionFile>, root: string, u: Update)
    requires WellFormed(rules, target, root) && u.id in st && st[u.id].content != u.content
    requires DefinitionFile(At(rules, st, u.id), At(rules, st, u.id) == root, u.content) in target
    ensures !Meets(rules, st, target)
  {
    OneFilePerPath(rules, target, root);
    assert DefinitionFile(At(rules, st, u.id), st[u.id].kind.Root?, st[u.id].content) !in target;
  }

  lemma ExtraFile(rules: PathRules, st: State, target: seq<DefinitionFile>, id: string)
    requires id in st && At(rules, st, id) !in Paths(target)
    ensures !Meets(rules, st, target)
  {
    assert DefinitionFile(At(rules, st, id), st[id].kind.Root?, st[id].content) !in target;
  }

  /** A run keeps every stored role, so it can meet a target only when the root stays where it is. */
  lemma RootNeverMoves(rules: PathRules, st: State, target: seq<DefinitionFile>, root: string, targetRoot: string,
                       ops: seq<Op>, newIds: seq<string>)
    requires Rooted(rules, st, root) && WellFormed(rules, target, targetRoot)
    requires |newIds| == |ops| && FreshIds(st, newIds) && OnStored(st, ops)
    requires HasAll(rules, Exec(st, ops, newIds), target)
    ensures root == targetRoot
  {
    ExecEffect(st, ops, newIds);
    var f :| f in target && f.path == targetRoot;
    RootWasRoot(rules, st, root, f, ops, newIds, Exec(st, ops, newIds));
  }

  lemma RootWasRoot(rules: PathRules, st: State, root: string, f: DefinitionFile, ops: seq<Op>, newIds: seq<string>, s: State)
    requires |newIds| == |ops| && Effect(st, ops, newIds, s)
    requires Rooted(rules, st, root) && f.isRoot && HasFile(rules, s, f)
    ensures f.path == root
  {
    var id :| id in s && At(rules, s, id) == f.path && s[id].kind == Root;
    if id in st {
      assert s[id].path == st[id].path && st[id].kind == Root;
      assert At(rules, st, id) == At(rules, s, id);
    }
  }

  // ---------- Snapshots ----------

  /** The bundle read back from the server: members by normalized path. */
  function BundleOf(rules: PathRules, cloud: seq<CloudFile>, contents: map<string, string>): seq<DefinitionFile>
    requires forall m :: m in cloud ==> m.id in contents
  {
    seq(|cloud|, i requires 0 <= i < |cloud| =>
      assert cloud[i] in cloud;
      DefinitionFile(Norm(rules, cloud[i].path), cloud[i].kind.Root?, contents[cloud[i].id]))
  }

  function SnapshotOf(bundle: seq<DefinitionFile>): seq<DefinitionFile> {
    SortBy(bundle, PathLeq)
  }

  ghost predicate Idempotent(rules: PathRules) {
    forall p :: rules.valid(p).Some? ==> rules.valid(rules.valid(p).value) == rules.valid(p)
  }

  ghost predicate Mirrors(rules: PathRules, st: State, snapshot: seq<DefinitionFile>) {
    && (forall id :: id in st ==> DefinitionFile(At(rules, st, id), st[id].kind.Root?, st[id].content) in snapshot)
    && (forall f :: f in snapshot ==> exists id :: id in st && f == DefinitionFile(At(rules, st, id), st[id].kind.Root?, st[id].content))
  }

  /** The snapshot of the stored set is a bundle that a run can restore, and it is met by the stored set. */
  lemma SnapshotIsRestorable(rules: PathRules, cloud: seq<CloudFile>, contents: map<string, string>, st: State, root: string)
    requires Idempotent(rules)
    requires Lists(cloud, contents, st) && Unambiguous(rules, st) && Rooted(rules, st, root)
    ensures WellFormed(rules, SnapshotOf(BundleOf(rules, cloud, contents)), root)
    ensures Meets(rules, st, SnapshotOf(BundleOf(rules, cloud, contents)))
  {
    var bundle := BundleOf(rules, cloud, contents);
    var snapshot := SnapshotOf(bundle);
    SortKeeps(bundle, PathLeq);
    SnapshotMembers(rules, cloud, contents, st, snapshot);
    BundleFoldsApart(rules, cloud, contents, st);
    SortedFoldsApart(rules, bundle, snapshot);
    SnapshotWellFormed(rules, st, root, snapshot);
    SnapshotMet(rules, st, snapshot);
  }

  lemma SnapshotMet(rules: PathRules, st: State, snapshot: seq<DefinitionFile>)
    requires Unambiguous(rules, st) && Mirrors(rules, st, snapshot)
    ensures Meets(rules, st, snapshot)
  {
    forall f | f in snapshot ensures HasFile(rules, st, f) {
      var id :| id in st && f == DefinitionFile(At(rules, st, id), st[id].kind.Root?, st[id].content);
    }
  }

  lemma SnapshotMembers(rules: PathRules, cloud: seq<CloudFile>, contents: map<string, string>, st: State, snapshot: seq<DefinitionFile>)
    requires Lists(cloud, contents, st)
    requires forall f :: f in snapshot <==> f in BundleOf(rules, cloud, contents)
    ensures Mirrors(rules, st, snapshot)
  {
    var bundle := BundleOf(rules, cloud, contents);
    forall id | id in st ensures DefinitionFile(At(rules, st, id), st[id].kind.Root?, st[id].content) in snapshot {
      var i :| 0 <= i < |cloud| && cloud[i] == CloudFile(id, st[id].path, st[id].kind);
      assert bundle[i] == DefinitionFile(At(rules, st, id), st[id].kind.Root?, st[id].content);
    }
    forall f | f in snapshot
      ensures exists id :: id in st && f == DefinitionFile(At(rules, st, id), st[id].kind.Root?, st[id].content)
    {
      var i :| 0 <= i < |bundle| && bundle[i] == f;
      assert cloud[i] in cloud;
      var id := cloud[i].id;
      assert f == DefinitionFile(At(rules, st, id), st[id].kind.Root?, st[id].content);
    }
  }

  lemma SnapshotWellFormed(rules: PathRules, st: State, root: string, snapshot: seq<DefinitionFile>)
    requires Idempotent(rules) && Unambiguous(rules, st) && Rooted(rules, st, root)
    requires Mirrors(rules, st, snapshot)
    requires forall i, j :: 0 <= i < j < |snapshot| ==> rules.fold(snapshot[i].path) != rules.fold(snapshot[j].path)
    ensures WellFormed(rules, snapshot, root)
  {
    forall f | f in snapshot ensures rules.valid(f.path) == Some(f.path) && (f.isRoot <==> f.path == root) {
      var id :| id in st && f == DefinitionFile(At(rules, st, id), st[id].kind.Root?, st[id].content);
      assert rules.valid(st[id].path) == Some(f.path);
    }
    var id :| id in st && At(rules, st, id) == root;
    assert DefinitionFile(At(rules, st, id), st[id].kind.Root?, st[id].content) in snapshot;
  }

  lemma BundleFoldsApart(rules: PathRules, cloud: seq<CloudFile>, contents: map<string, string>, st: State)
    requires Lists(cloud, contents, st) && Unambiguous(rules, st)
    ensures var bundle := BundleOf(rules, cloud, contents);
            forall i, j :: 0 <= i < j < |bundle| ==> rules.fold(bundle[i].path) != rules.fold(bundle[j].path)
  {
    ListingCollidesExactly(rules, cloud, contents, st);
    CollisionExact(rules, cloud, {});
  }

  lemma SortedFoldsApart(rules: PathRules, bundle: seq<DefinitionFile>, sorted: seq<DefinitionFile>)
    requires multiset(sorted) == multiset(bundle)
    requires forall i, j :: 0 <= i < j < |bundle| ==> rules.fold(bundle[i].path) != rules.fold(bundle[j].path)
    ensures forall i, j :: 0 <= i < j < |sorted| ==> rules.fold(sorted[i].path) != rules.fold(sorted[j].path)
  {
    assert Distinct(bundle);
    DistinctRearranged(bundle, sorted);
    forall i, j | 0 <= i < j < |sorted| ensures rules.fold(sorted[i].path) != rules.fold(sorted[j].path) {
      assert sorted[i] in multiset(sorted) && sorted[j] in multiset(sorted);
      var m :| 0 <= m < |bundle| && bundle[m] == sorted[i];
      var n :| 0 <= n < |bundle| && bundle[n] == sorted[j];
      assert m < n || n < m;
    }
  }

  lemma PathOrders()
    ensures TotalPreorder(PathLeq) && TotalPreorder(OpPathLeq) && TotalPreorder(CloudPathLeq)
  {
    StringLeqIsTotalOrder();
    assert forall a: DefinitionFile, b: DefinitionFile :: PathLeq(a, b) == StringLeq(a.path, b.path);
    assert forall a: Op, b: Op :: OpPathLeq(a, b) == StringLeq(a.path, b.path);
    assert forall a: CloudFile, b: CloudFile :: CloudPathLeq(a, b) == StringLeq(a.path, b.path);
  }

  lemma PathSortIsUnique(rules: PathRules, bundle: seq<DefinitionFile>, other: seq<DefinitionFile>)
    requires multiset(bundle) == multiset(other)
    requires forall i, j :: 0 <= i < j < |bundle| ==> rules.fold(bundle[i].path) != rules.fold(bundle[j].path)
    ensures SortBy(bundle, PathLeq) == SortBy(other, PathLeq)
  {
    PathOrders();
    SortKeeps(bundle, PathLeq);
    SortKeeps(other, PathLeq);
    SortSorts(bundle, PathLeq);
    SortSorts(other, PathLeq);
    forall a, b | a in bundle && b in bundle && PathLeq(a, b) && PathLeq(b, a) ensures a == b {
      StringLeqIsTotalOrder();
      var i :| 0 <= i < |bundle| && bundle[i] == a;
      var j :| 0 <= j < |bundle| && bundle[j] == b;
      assert i == j || i < j || j < i;
    }
    SortedIsUnique(SortBy(bundle, PathLeq), SortBy(other, PathLeq), PathLeq);
  }

  /** Snapshots do not depend on the order of the listing. */
  lemma SnapshotIsCanonical(rules: PathRules, bundle: seq<DefinitionFile>, other: seq<DefinitionFile>)
    requires multiset(bundle) == multiset(other)
    requires forall i, j :: 0 <= i < j < |bundle| ==> rules.fold(bundle[i].path) != rules.fold(bundle[j].path)
    ensures SnapshotOf(bundle) == SnapshotOf(other)
    ensures SnapshotOf(SnapshotOf(bundle)) == SnapshotOf(bundle)
  {
    SortKeeps(bundle, PathLeq);
    PathSortIsUnique(rules, bundle, other);
    PathSortIsUnique(rules, bundle, SnapshotOf(bundle));
  }

  // ---------- Inputs that fall outside ----------

  const CASE_RULES := PathRules((p: string) => Some(p), (p: string) => if p == "P" then "p" else p)
  const BEFORE_RENAME: State := map["1" := Stored("r", Root, "a"), "2" := Stored("P", Default, "b")]
  const RENAMED := [DefinitionFile("r", true, "a"), DefinitionFile("p", false, "b")]

  /** Renaming P to p: the stored set and the target are both in order, yet the upsert makes the set ambiguous. */
  lemma CaseOnlyRename()
    ensures Unambiguous(CASE_RULES, BEFORE_RENAME) && Rooted(CASE_RULES, BEFORE_RENAME, "r")
    ensures WellFormed(CASE_RULES, RENAMED, "r") && FoldsOntoStored(CASE_RULES, BEFORE_RENAME, RENAMED)
    ensures !Unambiguous(CASE_RULES, Apply(BEFORE_RENAME, CreateOp("p", "b"), "3"))
  {
    var st := BEFORE_RENAME;
    assert At(CASE_RULES, st, "1") == "r" && At(CASE_RULES, st, "2") == "P";
    assert "r" != "P" && "r" != "p" && "p" != "P";
    assert RENAMED[0] in RENAMED && RENAMED[1] in RENAMED;
    assert RENAMED[0].path in Paths(RENAMED);
    var s := Apply(st, CreateOp("p", "b"), "3");
    assert At(CASE_RULES, s, "2") == "P" && At(CASE_RULES, s, "3") == "p";
  }

  /** With two stored roots the scheduler keeps only the second root update. */
  lemma TwoRootUpdatesLoseOne()
    ensures var byId := map["1" := CloudFile("1", "a", Root), "2" := CloudFile("2", "b", Root)];
            var plan := Plan([], [Update("1", "x"), Update("2", "y")], []);
            OrderedOps(CASE_RULES, byId, plan) == [UpdateOp("b", "2", "y")]
  {
    var byId := map["1" := CloudFile("1", "a", Root), "2" := CloudFile("2", "b", Root)];
    var plan := Plan([], [Update("1", "x"), Update("2", "y")], []);
    var updates := UpdateOps(CASE_RULES, byId, plan);
    assert updates == [UpdateOp("a", "1", "x"), UpdateOp("b", "2", "y")];
    assert updates[..1] == [UpdateOp("a", "1", "x")] && updates[..0] == [];
    assert Select(byId, updates[..1], true) == [updates[0]] && Select(byId, updates[..1], false) == [];
    assert Select(byId, updates, true) == updates && Select(byId, updates, false) == [];
    assert NonRootUpserts(CASE_RULES, byId, plan) == [] && DeleteOps(CASE_RULES, byId, plan) == [];
  }
}
