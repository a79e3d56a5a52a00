/**
 Reconciling the file set of a specification: a planner compares the stored set with the target, and
 a scheduler orders the operations of the plan.
 */
module SpecReconcile {
  import opened Wrappers
  import opened Ordering

  datatype Kind = Root | Default

  /** A row of the stored file list.  The path is as the server reports it. */
  datatype CloudFile = CloudFile(id: string, path: string, kind: Kind)

  datatype DefinitionFile = DefinitionFile(path: string, isRoot: bool, content: string)

  datatype Create = Create(path: string, content: string)
  datatype Update = Update(id: string, content: string)
  datatype Plan = Plan(create: seq<Create>, update: seq<Update>, delete: seq<string>)

  datatype Op =
    | CreateOp(path: string, content: string)
    | UpdateOp(path: string, id: string, content: string)
    | DeleteOp(path: string, id: string)

  datatype Error = InvalidPath | DuplicatePath | RootPathChange | MissingContent | InvalidBundle

  /** Path validation (which also normalizes) and case folding. */
  datatype PathRules = PathRules(valid: string -> Option<string>, fold: string -> string)

  function Norm(rules: PathRules, path: string): string {
    match rules.valid(path)
    case Some(p) => p
    case None => ""
  }

  function PathLeq(a: DefinitionFile, b: DefinitionFile): bool {
    StringLeq(a.path, b.path)
  }

  function CloudPathLeq(a: CloudFile, b: CloudFile): bool {
    StringLeq(a.path, b.path)
  }

  function OpPathLeq(a: Op, b: Op): bool {
    StringLeq(a.path, b.path)
  }

  // ---------- Collisions ----------

  /** The first problem of a file list, given the folded paths seen so far. */
  function Collision(rules: PathRules, metas: seq<CloudFile>, seen: set<string>): Option<Error> {
    if metas == [] then None
    else
      match rules.valid(metas[0].path)
      case None => Some(InvalidPath)
      case Some(p) =>
        if rules.fold(p) in seen then Some(DuplicatePath)
        else Collision(rules, metas[1..], seen + {rules.fold(p)})
  }

  method AssertNoCloudPathCollisions(rules: PathRules, metas: seq<CloudFile>) returns (error: Option<Error>)
    ensures error == Collision(rules, metas, {})
  {
    var seen: map<string, string> := map[];
    assert metas[0..] == metas && seen.Keys == {};
    for i := 0 to |metas|
      invariant Collision(rules, metas, {}) == Collision(rules, metas[i..], seen.Keys)
    {
      assert metas[i..][1..] == metas[i + 1..];
      var normalized := rules.valid(metas[i].path);
      if normalized.None? {
        return Some(InvalidPath);
      }
      var folded := rules.fold(normalized.value);
      if folded in seen {
        return Some(DuplicatePath);
      }
      ghost var before := seen.Keys;
      seen := seen[folded := normalized.value];
      assert seen.Keys == before + {folded};
    }
    error := None;
  }

  /** Every path is valid and no two paths fold together. */
  ghost predicate CollisionFree(rules: PathRules, metas: seq<CloudFile>) {
    && (forall i :: 0 <= i < |metas| ==> rules.valid(metas[i].path).Some?)
    && (forall i, j :: 0 <= i < j < |metas| ==>
          rules.fold(Norm(rules, metas[i].path)) != rules.fold(Norm(rules, metas[j].path)))
  }

  lemma CollisionFreeCons(rules: PathRules, head: CloudFile, rest: seq<CloudFile>)
    ensures CollisionFree(rules, [head] + rest) <==>
              && rules.valid(head.path).Some?
              && CollisionFree(rules, rest)
              && forall m :: m in rest ==> rules.fold(Norm(rules, m.path)) != rules.fold(Norm(rules, head.path))
  {
    var metas := [head] + rest;
    if CollisionFree(rules, metas) {
      assert forall i :: 0 <= i < |rest| ==> rest[i] == metas[i + 1];
      assert metas[0] == head;
    } else if rules.valid(head.path).Some? && CollisionFree(rules, rest) {
      assert forall i :: 1 <= i < |metas| ==> metas[i] == rest[i - 1] && metas[i] in rest;
    }
  }

  lemma {:induction false} CollisionExact(rules: PathRules, metas: seq<CloudFile>, seen: set<string>)
    ensures Collision(rules, metas, seen).None? <==>
              CollisionFree(rules, metas) && forall m :: m in metas ==> rules.fold(Norm(rules, m.path)) !in seen
  {
    if metas != [] {
      var head, rest := metas[0], metas[1..];
      assert metas == [head] + rest;
      assert forall m :: m in metas <==> m == head || m in rest;
      CollisionFreeCons(rules, head, rest);
      if rules.valid(head.path).Some? {
        CollisionExact(rules, rest, seen + {rules.fold(Norm(rules, head.path))});
      }
    }
  }

  // ---------- Planning ----------

  /** The stored file at each normalized path. */
  function ByPath(rules: PathRules, cloud: seq<CloudFile>): map<string, CloudFile> {
    if cloud == [] then map[]
    else
      var last := cloud[|cloud| - 1];
      ByPath(rules, cloud[..|cloud| - 1])[Norm(rules, last.path) := last]
  }

  function Upserts(files: seq<DefinitionFile>, byPath: map<string, CloudFile>, contents: map<string, string>): Result<(seq<Create>, seq<Update>), Error> {
    if files == [] then Success(([], []))
    else
      var file := files[|files| - 1];
      match Upserts(files[..|files| - 1], byPath, contents)
      case Failure(e) => Failure(e)
      case Success((creates, updates)) =>
        if file.path !in byPath then
          if file.isRoot then Failure(RootPathChange)
          else Success((creates + [Create(file.path, file.content)], updates))
        else
          var id := byPath[file.path].id;
          if id !in contents then Failure(MissingContent)
          else if contents[id] != file.content then Success((creates, updates + [Update(id, file.content)]))
          else Success((creates, updates))
  }

  function Deletes(rules: PathRules, cloud: seq<CloudFile>, targetPaths: set<string>): Result<seq<string>, Error> {
    if cloud == [] then Success([])
    else
      var meta := cloud[|cloud| - 1];
      match Deletes(rules, cloud[..|cloud| - 1], targetPaths)
      case Failure(e) => Failure(e)
      case Success(ids) =>
        if Norm(rules, meta.path) in targetPaths then Success(ids)
        else if meta.kind.Root? then Failure(RootPathChange)
        else Success(ids + [meta.id])
  }

  function Paths(files: seq<DefinitionFile>): set<string> {
    set f <- files :: f.path
  }

  function PlanOf(rules: PathRules, cloud: seq<CloudFile>, contents: map<string, string>, target: seq<DefinitionFile>): Result<Plan, Error> {
    match Collision(rules, cloud, {})
    case Some(e) => Failure(e)
    case None =>
      match Upserts(SortBy(target, PathLeq), ByPath(rules, cloud), contents)
      case Failure(e) => Failure(e)
      case Success((creates, updates)) =>
        match Deletes(rules, SortBy(cloud, CloudPathLeq), Paths(target))
        case Failure(e) => Failure(e)
        case Success(deletes) => Success(Plan(creates, updates, deletes))
  }

  predicate PlanHasMutations(plan: Plan) {
    plan.create != [] || plan.update != [] || plan.delete != []
  }

  method IndexByPath(rules: PathRules, cloud: seq<CloudFile>) returns (cloudByPath: map<string, CloudFile>)
    ensures cloudByPath == ByPath(rules, cloud)
  {
    cloudByPath := map[];
    for i := 0 to |cloud|
      invariant cloudByPath == ByPath(rules, cloud[..i])
    {
      cloudByPath := cloudByPath[Norm(rules, cloud[i].path) := cloud[i]];
      assert cloud[..i + 1][..i] == cloud[..i];
    }
    assert cloud[..|cloud|] == cloud;
  }

  method PlanUpserts(files: seq<DefinitionFile>, cloudByPath: map<string, CloudFile>, contents: map<string, string>)
    returns (result: Result<(seq<Create>, seq<Update>), Error>, targetPaths: set<string>)
    ensures result == Upserts(files, cloudByPath, contents)
    ensures result.Success? ==> targetPaths == Paths(files)
  {
    var creates: seq<Create>, updates: seq<Update> := [], [];
    targetPaths := {};
    for i := 0 to |files|
      invariant Upserts(files[..i], cloudByPath, contents) == Success((creates, updates))
      invariant targetPaths == Paths(files[..i])
    {
      var file := files[i];
      assert files[..i + 1][..i] == files[..i];
      assert files[..i + 1] == files[..i] + [file];
      targetPaths := targetPaths + {file.path};
      if file.path !in cloudByPath {
        if file.isRoot {
          UpsertsFailEarly(files, i + 1, cloudByPath, contents);
          return Failure(RootPathChange), targetPaths;
        }
        creates := creates + [Create(file.path, file.content)];
      } else {
        var id := cloudByPath[file.path].id;
        if id !in contents {
          UpsertsFailEarly(files, i + 1, cloudByPath, contents);
          return Failure(MissingContent), targetPaths;
        }
        if contents[id] != file.content {
          updates := updates + [Update(id, file.content)];
        }
      }
    }
    assert files[..|files|] == files;
    result := Success((creates, updates));
  }

  method PlanDeletes(rules: PathRules, metas: seq<CloudFile>, targetPaths: set<string>) returns (result: Result<seq<string>, Error>)
    ensures result == Deletes(rules, metas, targetPaths)
  {
    var deletes: seq<string> := [];
    for i := 0 to |metas|
      invariant Deletes(rules, metas[..i], targetPaths) == Success(deletes)
    {
      assert metas[..i + 1][..i] == metas[..i];
      if Norm(rules, metas[i].path) !in targetPaths {
        if metas[i].kind.Root? {
          DeletesFailEarly(rules, metas, i + 1, targetPaths);
          return Failure(RootPathChange);
        }
        deletes := deletes + [metas[i].id];
      }
    }
    assert metas[..|metas|] == metas;
    result := Success(deletes);
  }

  method PlanSpecFileReconcile(rules: PathRules, cloud: seq<CloudFile>, contents: map<string, string>, target: seq<DefinitionFile>)
    returns (result: Result<Plan, Error>)
    ensures result == PlanOf(rules, cloud, contents, target)
  {
    var collision := AssertNoCloudPathCollisions(rules, cloud);
    if collision.Some? {
      return Failure(collision.value);
    }
    var cloudByPath := IndexByPath(rules, cloud);
    SortKeeps(target, PathLeq);
    var upserts, targetPaths := PlanUpserts(SortBy(target, PathLeq), cloudByPath, contents);
    if upserts.Failure? {
      return Failure(upserts.error);
    }
    assert targetPaths == Paths(target);
    var deletes := PlanDeletes(rules, SortBy(cloud, CloudPathLeq), targetPaths);
    if deletes.Failure? {
      return Failure(deletes.error);
    }
    result := Success(Plan(upserts.value.0, upserts.value.1, deletes.value));
  }

  lemma {:induction false} UpsertsFailEarly(files: seq<DefinitionFile>, k: nat, byPath: map<string, CloudFile>, contents: map<string, string>)
    requires k <= |files| && Upserts(files[..k], byPath, contents).Failure?
    ensures Upserts(files, byPath, contents) == Upserts(files[..k], byPath, contents)
  {
    if k == |files| {
      assert files[..k] == files;
    } else {
      var shorter := files[..|files| - 1];
      assert shorter[..k] == files[..k];
      UpsertsFailEarly(shorter, k, byPath, contents);
    }
  }

  lemma {:induction false} DeletesFailEarly(rules: PathRules, cloud: seq<CloudFile>, k: nat, targetPaths: set<string>)
    requires k <= |cloud| && Deletes(rules, cloud[..k], targetPaths).Failure?
    ensures Deletes(rules, cloud, targetPaths) == Deletes(rules, cloud[..k], targetPaths)
  {
    if k == |cloud| {
      assert cloud[..k] == cloud;
    } else {
      var shorter := cloud[..|cloud| - 1];
      assert shorter[..k] == cloud[..k];
      DeletesFailEarly(rules, shorter, k, targetPaths);
    }
  }

  /** What is wrong with one file of the target. */
  function Problem(file: DefinitionFile, byPath: map<string, CloudFile>, contents: map<string, string>): Option<Error> {
    if file.path !in byPath then if file.isRoot then Some(RootPathChange) else None
    else if byPath[file.path].id in contents then None
    else Some(MissingContent)
  }

  /** Upserts fail with the first problem of a file, and when there is none they do not fail. */
  lemma {:induction false} UpsertsFailExactly(files: seq<DefinitionFile>, byPath: map<string, CloudFile>, contents: map<string, string>)
    ensures Upserts(files, byPath, contents).Success? <==> forall i :: 0 <= i < |files| ==> Problem(files[i], byPath, contents).None?
    ensures Upserts(files, byPath, contents).Failure? ==>
              exists i :: 0 <= i < |files| && Problem(files[i], byPath, contents) == Some(Upserts(files, byPath, contents).error)
                && forall j :: 0 <= j < i ==> Problem(files[j], byPath, contents).None?
  {
    if files != [] {
      var n := |files| - 1;
      var front := files[..n];
      UpsertsFailExactly(front, byPath, contents);
      assert forall i :: 0 <= i < n ==> front[i] == files[i];
      if Upserts(front, byPath, contents).Failure? {
        var i :| 0 <= i < n && Problem(front[i], byPath, contents) == Some(Upserts(front, byPath, contents).error)
          && forall j :: 0 <= j < i ==> Problem(front[j], byPath, contents).None?;
        assert Problem(files[i], byPath, contents) == Some(Upserts(files, byPath, contents).error);
      }
    }
  }

  // ---------- Ordering ----------

  /** The stored file of each id; a later row wins. */
  function ById(cloud: seq<CloudFile>): map<string, CloudFile> {
    if cloud == [] then map[]
    else ById(cloud[..|cloud| - 1])[cloud[|cloud| - 1].id := cloud[|cloud| - 1]]
  }

  function PathKey(rules: PathRules, byId: map<string, CloudFile>, id: string): string {
    if id in byId then Norm(rules, byId[id].path) else id
  }

  predicate Resolvable(rules: PathRules, byId: map<string, CloudFile>, id: string) {
    id in byId ==> rules.valid(byId[id].path).Some?
  }

  function CreateOps(plan: Plan): seq<Op> {
    seq(|plan.create|, i requires 0 <= i < |plan.create| => CreateOp(plan.create[i].path, plan.create[i].content))
  }

  function UpdateOps(rules: PathRules, byId: map<string, CloudFile>, plan: Plan): seq<Op> {
    seq(|plan.update|, i requires 0 <= i < |plan.update| =>
      UpdateOp(PathKey(rules, byId, plan.update[i].id), plan.update[i].id, plan.update[i].content))
  }

  function DeleteOps(rules: PathRules, byId: map<string, CloudFile>, plan: Plan): seq<Op> {
    seq(|plan.delete|, i requires 0 <= i < |plan.delete| =>
      DeleteOp(PathKey(rules, byId, plan.delete[i]), plan.delete[i]))
  }

  predicate OnRoot(byId: map<string, CloudFile>, op: Op) {
    op.UpdateOp? && op.id in byId && byId[op.id].kind.Root?
  }

  /** The operations on a root, or those that are not, in order. */
  function Select(byId: map<string, CloudFile>, ops: seq<Op>, onRoot: bool): seq<Op> {
    if ops == [] then []
    else
      var before := Select(byId, ops[..|ops| - 1], onRoot);
      if OnRoot(byId, ops[|ops| - 1]) == onRoot then before + [ops[|ops| - 1]] else before
  }

  function RootUpdates(rules: PathRules, byId: map<string, CloudFile>, plan: Plan): seq<Op> {
    Select(byId, UpdateOps(rules, byId, plan), true)
  }

  function NonRootUpserts(rules: PathRules, byId: map<string, CloudFile>, plan: Plan): seq<Op> {
    CreateOps(plan) + Select(byId, UpdateOps(rules, byId, plan), false)
  }

  /** Only one variable holds the root update, so a later one replaces it. */
  function LastOnly<T>(s: seq<T>): seq<T> {
    if s == [] then [] else [s[|s| - 1]]
  }

  function OrderedOps(rules: PathRules, byId: map<string, CloudFile>, plan: Plan): seq<Op> {
    SortBy(NonRootUpserts(rules, byId, plan), OpPathLeq)
    + LastOnly(RootUpdates(rules, byId, plan))
    + SortBy(DeleteOps(rules, byId, plan), OpPathLeq)
  }

  ghost predicate AllResolvable(rules: PathRules, byId: map<string, CloudFile>, plan: Plan) {
    && (forall u :: u in plan.update ==> Resolvable(rules, byId, u.id))
    && (forall id :: id in plan.delete ==> Resolvable(rules, byId, id))
  }

  method OrderPerFileReconcileOps(rules: PathRules, plan: Plan, cloud: seq<CloudFile>) returns (result: Result<seq<Op>, Error>)
    ensures AllResolvable(rules, ById(cloud), plan) ==> result == Success(OrderedOps(rules, ById(cloud), plan))
    ensures !AllResolvable(rules, ById(cloud), plan) ==> result == Failure(InvalidPath)
  {
    hide OpPathLeq, SortBy, PathKey, Resolvable, OnRoot;
    var cloudById: map<string, CloudFile> := map[];
    for i := 0 to |cloud|
      invariant cloudById == ById(cloud[..i])
    {
      cloudById := cloudById[cloud[i].id := cloud[i]];
      assert cloud[..i + 1][..i] == cloud[..i];
    }
    assert cloud[..|cloud|] == cloud;
    var nonRootUpserts: seq<Op> := [];
    for i := 0 to |plan.create|
      invariant nonRootUpserts == CreateOps(plan)[..i]
    {
      nonRootUpserts := nonRootUpserts + [CreateOp(plan.create[i].path, plan.create[i].content)];
    }
    assert nonRootUpserts == CreateOps(plan);
    ghost var updates := UpdateOps(rules, cloudById, plan);
    assert updates[..0] == [];
    var rootUpdate: seq<Op> := [];
    for i := 0 to |plan.update|
      invariant nonRootUpserts == CreateOps(plan) + Select(cloudById, updates[..i], false)
      invariant rootUpdate == LastOnly(Select(cloudById, updates[..i], true))
      invariant forall j :: 0 <= j < i ==> Resolvable(rules, cloudById, plan.update[j].id)
    {
      var id := plan.update[i].id;
      if !Resolvable(rules, cloudById, id) {
        return Failure(InvalidPath);
      }
      var op := UpdateOp(PathKey(rules, cloudById, id), id, plan.update[i].content);
      assert updates[..i + 1][..i] == updates[..i] && updates[i] == op;
      if OnRoot(cloudById, op) {
        rootUpdate := [op];
      } else {
        nonRootUpserts := nonRootUpserts + [op];
      }
    }
    assert updates[..|plan.update|] == updates;
    assert nonRootUpserts == NonRootUpserts(rules, cloudById, plan);
    assert rootUpdate == LastOnly(RootUpdates(rules, cloudById, plan));
    var deletes: seq<Op> := [];
    for i := 0 to |plan.delete|
      invariant deletes == DeleteOps(rules, cloudById, plan)[..i]
      invariant forall j :: 0 <= j < i ==> Resolvable(rules, cloudById, plan.delete[j])
    {
      if !Resolvable(rules, cloudById, plan.delete[i]) {
        return Failure(InvalidPath);
      }
      deletes := deletes + [DeleteOp(PathKey(rules, cloudById, plan.delete[i]), plan.delete[i])];
    }
    assert deletes == DeleteOps(rules, cloudById, plan);
    result := Success(SortBy(nonRootUpserts, OpPathLeq) + rootUpdate + SortBy(deletes, OpPathLeq));
  }

  lemma {:induction false} SelectMembers(byId: map<string, CloudFile>, ops: seq<Op>, onRoot: bool)
    ensures forall op :: op in Select(byId, ops, onRoot) <==> op in ops && OnRoot(byId, op) == onRoot
  {
    if ops != [] {
      var shorter, last := ops[..|ops| - 1], ops[|ops| - 1];
      SelectMembers(byId, shorter, onRoot);
      assert ops == shorter + [last];
      assert forall op :: op in ops <==> op in shorter || op == last;
    }
  }

  lemma {:induction false} SelectCounts(byId: map<string, CloudFile>, ops: seq<Op>)
    ensures multiset(Select(byId, ops, true)) + multiset(Select(byId, ops, false)) == multiset(ops)
  {
    if ops != [] {
      var shorter := ops[..|ops| - 1];
      SelectCounts(byId, shorter);
      assert ops == shorter + [ops[|ops| - 1]];
    }
  }

  lemma SelectSplits(byId: map<string, CloudFile>, ops: seq<Op>)
    ensures multiset(Select(byId, ops, true)) + multiset(Select(byId, ops, false)) == multiset(ops)
    ensures forall op :: op in Select(byId, ops, true) <==> op in ops && OnRoot(byId, op)
    ensures forall op :: op in Select(byId, ops, false) <==> op in ops && !OnRoot(byId, op)
  {
    SelectCounts(byId, ops);
    SelectMembers(byId, ops, true);
    SelectMembers(byId, ops, false);
  }

  /**
   The ordered operations are the operations of the plan, none lost and none added, exactly when at
   most one of the updated files is a root.
   */
  lemma OrderedOpsAreThePlan(rules: PathRules, byId: map<string, CloudFile>, plan: Plan)
    ensures multiset(OrderedOps(rules, byId, plan))
              == multiset(CreateOps(plan)) + multiset(UpdateOps(rules, byId, plan)) + multiset(DeleteOps(rules, byId, plan))
            <==> |RootUpdates(rules, byId, plan)| <= 1
  {
    var creates, updates, deletes := CreateOps(plan), UpdateOps(rules, byId, plan), DeleteOps(rules, byId, plan);
    var roots, others := RootUpdates(rules, byId, plan), Select(byId, updates, false);
    SelectSplits(byId, updates);
    SortKeeps(NonRootUpserts(rules, byId, plan), OpPathLeq);
    SortKeeps(deletes, OpPathLeq);
    var all := multiset(creates) + multiset(updates) + multiset(deletes);
    assert multiset(OrderedOps(rules, byId, plan)) == multiset(creates) + multiset(others) + multiset(LastOnly(roots)) + multiset(deletes);
    if |roots| <= 1 {
      assert LastOnly(roots) == roots;
    } else {
      assert |all| == |creates| + |others| + |roots| + |deletes|;
      assert |multiset(OrderedOps(rules, byId, plan))| == |creates| + |others| + 1 + |deletes|;
    }
  }
}
