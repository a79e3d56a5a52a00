/**
 The bootstrap transaction: snapshot, update the specification, write the role collections through
 two lanes, verify them, link and tag, and only then record ids.  A failure at any point is
 compensated.  `Run` states what a failing run leaves behind, for every interleaving of the lanes
 and for every way in which a remote call can go wrong.
 */
module Bootstrap {
  import opened Wrappers
  import opened RemoteStore
  import P = LanePool

  /** `existingId` is the collection a refresh writes in place; `payload` is what it should hold. */
  datatype Role = Role(key: string, existingId: Option<string>, payload: string)

  /** `rootContent`: scripts or variables are configured that go into every collection. */
  datatype Config = Config(
    roles: seq<Role>,
    refresh: bool,
    useDelta: bool,
    multiFile: bool,
    canDeepUpdate: bool,
    canExport: bool,
    canVerifyReceipt: bool,
    canDeleteSpec: bool,
    canDeleteImports: bool,
    canonicalWriter: bool,
    rootContent: bool,
    upload: string,
    specKey: string,
    normalize: string -> string)

  datatype Error =
    | Preflight
    | Failed(stage: string)
    | OrchestrationFailed(stage: string)
    | CollectionRollbackFailed
    | SpecRollbackFailed
  {
    predicate RollbackFailed() {
      CollectionRollbackFailed? || SpecRollbackFailed?
    }
  }

  /** A call a lane is waiting for. */
  datatype Call = Unchanged(id: string) | MissingSnapshot | WholeCall(id: string) | DeltaCall(id: string) | ImportCall

  datatype WriteResult =
    | Kept(id: string)
    | Imported(id: string)
    | DeepUpdated(id: string)
    | DeltaUpdated(id: string)

  /** The stages between the collections and the tracked state. */
  const STAGES := ["Sync Additional Collections", "Link Collections to Specification", "Tag Collections", "Persist Manifest"]

  /** What a run has sent to be uploaded: the answer, and the specifications as the call left them. */
  datatype Upload = NotSent | Sent(reply: UploadReply, after: map<string, string>)

  /** An answer that the run goes on with; an unconfirmed multi-file upload ends it. */
  predicate Confirmed(config: Config, reply: UploadReply) {
    reply.Uploaded? && (config.multiFile ==> reply.verified)
  }

  /** What an upload may have done to the specifications. */
  ghost predicate UploadFits(config: Config, base: map<string, string>, upload: Upload) {
    match upload
    case NotSent => true
    case Sent(reply, after) =>
      && (reply.Uploaded? && reply.created ==> reply.id !in base && after == base[reply.id := config.upload])
      && (reply.Uploaded? && !reply.created ==> reply.id in base && SameBut(after, base, {reply.id}))
  }

  /** The specifications after a failed run that had none of its own: only a confirmed new one is deleted again. */
  function AfterFailure(config: Config, base: map<string, string>, upload: Upload): map<string, string> {
    match upload
    case NotSent => base
    case Sent(reply, after) => if Confirmed(config, reply) && reply.created && config.canDeleteSpec then base else after
  }

  /** What the outer handler makes of the specifications that an upload left. */
  lemma UploadUndone(config: Config, base: map<string, string>, reply: UploadReply, after: map<string, string>)
    requires UploadFits(config, base, Sent(reply, after))
    ensures AfterFailure(config, base, Sent(reply, after))
            == if Confirmed(config, reply) && reply.created && config.canDeleteSpec then after - {reply.id} else after
  {
  }

  lemma NothingSent(config: Config, base: map<string, string>)
    ensures UploadFits(config, base, NotSent) && AfterFailure(config, base, NotSent) == base
  {
  }

  predicate InPlace(config: Config, role: Role) {
    config.refresh && role.existingId.Some?
  }

  /** The collections a refresh may write in place. */
  function Reusable(config: Config): set<string> {
    set role <- config.roles | InPlace(config, role) :: role.existingId.value
  }

  predicate DistinctIds(roles: seq<Role>) {
    forall i, j :: 0 <= i < j < |roles| && roles[i].existingId.Some? ==> roles[i].existingId != roles[j].existingId
  }

  /** An error of a collection stage carries the rollback code exactly when that stage's rollback failed. */
  predicate StageError(error: Error, before: bool, after: bool) {
    && (error.Failed? || error.OrchestrationFailed? || error.CollectionRollbackFailed?)
    && after == (before || error.CollectionRollbackFailed?)
  }

  predicate DistinctKeys(roles: seq<Role>) {
    forall i, j :: 0 <= i < j < |roles| ==> roles[i].key != roles[j].key
  }

  /** The tracked state once the specification and the role collections are recorded; only a canonical run writes it. */
  function Recorded(config: Config, tracked: map<string, string>, specId: Option<string>, outputs: map<string, string>): map<string, string> {
    if !config.canonicalWriter then tracked
    else (if specId.Some? then tracked[config.specKey := specId.value] else tracked) + outputs
  }

  lemma OnlyCanonicalRecords(config: Config, tracked: map<string, string>, specId: Option<string>, outputs: map<string, string>)
    ensures !config.canonicalWriter ==> Recorded(config, tracked, specId, outputs) == tracked
  {
  }

  function KnownIds(roles: seq<Role>): map<string, string> {
    if roles == [] then map[]
    else
      var rest := KnownIds(roles[1..]);
      if roles[0].existingId.Some? then rest[roles[0].key := roles[0].existingId.value] else rest
  }

  predicate DistinctOutputs(outputs: map<string, string>) {
    forall a, b :: a in outputs && b in outputs && a != b ==> outputs[a] != outputs[b]
  }

  /** What a restore of the specification writes back. */
  function RollbackContent(config: Config, stored: string): string {
    if config.multiFile then stored else config.normalize(stored)
  }

  /** The specification was there before the run, with the content that the run would upload. */
  predicate FoundUnchanged(config: Config, priorId: Option<string>, base: map<string, string>) {
    priorId.Some? && priorId.value in base && RollbackContent(config, base[priorId.value]) == config.upload
  }

  /** A collection that a role has does not hold what the role should hold. */
  ghost predicate SomeRoleDiffers(config: Config, digest: string -> string, collections: map<string, string>) {
    exists i :: 0 <= i < |config.roles| && Differs(config.roles[i], digest, collections)
  }

  ghost predicate Differs(role: Role, digest: string -> string, collections: map<string, string>) {
    role.existingId.Some? && role.existingId.value in collections && digest(collections[role.existingId.value]) != digest(role.payload)
  }

  /** When collections are generated, given whether the specification was found the same. */
  ghost predicate GeneratedWhenDue(config: Config, digest: string -> string, collections: map<string, string>, same: bool, generated: bool) {
    && (!same ==> generated)
    && (same && !config.rootContent ==> !generated)
    && (config.rootContent && config.refresh ==> generated)
    && (same && generated && !config.refresh ==> SomeRoleDiffers(config, digest, collections))
  }

  // ---------- What these say, collection by collection and key by key ----------

  /** A refresh may write exactly the collections that its roles already have. */
  lemma ReusableExactly(config: Config, id: string)
    ensures id in Reusable(config) <==> config.refresh && exists i :: 0 <= i < |config.roles| && config.roles[i].existingId == Some(id)
  {
    if config.refresh && exists i :: 0 <= i < |config.roles| && config.roles[i].existingId == Some(id) {
      var i :| 0 <= i < |config.roles| && config.roles[i].existingId == Some(id);
      assert config.roles[i] in config.roles && InPlace(config, config.roles[i]);
    }
  }

  /** Two things clash when two different places hold the same. */
  lemma ClashesExactly(roles: seq<Role>, outputs: map<string, string>)
    ensures !DistinctIds(roles) <==>
              exists i, j :: 0 <= i < |roles| && 0 <= j < |roles| && i != j && roles[i].existingId.Some? && roles[i].existingId == roles[j].existingId
    ensures !DistinctKeys(roles) <==> exists i, j :: 0 <= i < |roles| && 0 <= j < |roles| && i != j && roles[i].key == roles[j].key
    ensures !DistinctOutputs(outputs) <==> exists a, b :: a in outputs && b in outputs && a != b && outputs[a] == outputs[b]
  {
  }

  /** The stages behind the collections, in order. */
  lemma StagesInOrder()
    ensures |STAGES| == 4 && STAGES[0] == "Sync Additional Collections" && STAGES[1] == "Link Collections to Specification"
    ensures STAGES[2] == "Tag Collections" && STAGES[3] == "Persist Manifest"
  {
  }

  /** A canonical run records the role collections and the specification and leaves every other key. */
  lemma RecordedExactly(config: Config, tracked: map<string, string>, specId: Option<string>, outputs: map<string, string>, key: string)
    requires config.canonicalWriter
    ensures var after := Recorded(config, tracked, specId, outputs);
            && (key in outputs ==> key in after && after[key] == outputs[key])
            && (key !in outputs && key == config.specKey && specId.Some? ==> key in after && after[key] == specId.value)
            && (key !in outputs && !(key == config.specKey && specId.Some?) ==>
                  (key in after <==> key in tracked) && (key in tracked ==> after[key] == tracked[key]))
  {
  }

  /** A single file is restored, and compared, in its normalized form; a file set as it was stored. */
  lemma RollbackContentExactly(config: Config, priorId: Option<string>, base: map<string, string>, stored: string)
    ensures config.multiFile ==> RollbackContent(config, stored) == stored
    ensures !config.multiFile ==> RollbackContent(config, stored) == config.normalize(stored)
    ensures FoundUnchanged(config, priorId, base) <==>
              && priorId.Some? && priorId.value in base
              && config.upload == if config.multiFile then base[priorId.value] else config.normalize(base[priorId.value])
  {
  }

  /** Only a new specification whose upload was confirmed, and that can be deleted, is gone after a failure. */
  lemma AfterFailureExactly(config: Config, base: map<string, string>, after: map<string, string>, id: string, verified: bool)
    ensures AfterFailure(config, base, Sent(UploadThrew, after)) == after
    ensures AfterFailure(config, base, Sent(Uploaded(id, false, verified), after)) == after
    ensures AfterFailure(config, base, Sent(Uploaded(id, true, verified), after))
            == if config.canDeleteSpec && (verified || !config.multiFile) then base else after
    ensures Confirmed(config, Uploaded(id, true, verified)) <==> verified || !config.multiFile
    ensures Confirmed(config, Uploaded(id, false, verified)) <==> verified || !config.multiFile
    ensures !Confirmed(config, UploadThrew)
  {
  }

  /** What is left when collections stay as they are: each role's collection, if it has one, and nothing else. */
  lemma {:induction false} KnownIdsExactly(roles: seq<Role>)
    requires DistinctKeys(roles)
    ensures forall i :: 0 <= i < |roles| && roles[i].existingId.Some? ==>
              roles[i].key in KnownIds(roles) && KnownIds(roles)[roles[i].key] == roles[i].existingId.value
    ensures forall key :: key in KnownIds(roles) ==> exists i :: 0 <= i < |roles| && roles[i].key == key && roles[i].existingId.Some?
  {
    if roles != [] {
      var rest := roles[1..];
      assert forall i :: 1 <= i < |roles| ==> roles[i] == rest[i - 1];
      KnownIdsExactly(rest);
      forall key | key in KnownIds(roles) ensures exists i :: 0 <= i < |roles| && roles[i].key == key && roles[i].existingId.Some? {
        if key in KnownIds(rest) {
          var i :| 0 <= i < |rest| && rest[i].key == key && rest[i].existingId.Some?;
          assert roles[i + 1].key == key;
        }
      }
    }
  }

  /** Delivered means that the collection a role's output names has the digest of the role's payload. */
  lemma DeliveredExactly(config: Config, digest: string -> string, outputs: map<string, string>, collections: map<string, string>)
    ensures AllDelivered(config, digest, outputs, collections) <==>
              forall role :: role in config.roles ==>
                role.key in outputs && outputs[role.key] in collections && digest(collections[outputs[role.key]]) == digest(role.payload)
  {
    if forall role :: role in config.roles ==>
         role.key in outputs && outputs[role.key] in collections && digest(collections[outputs[role.key]]) == digest(role.payload) {
      forall i | 0 <= i < |config.roles|
        ensures config.roles[i].key in outputs && outputs[config.roles[i].key] in collections
        ensures digest(collections[outputs[config.roles[i].key]]) == digest(config.roles[i].payload)
      {
        assert config.roles[i] in config.roles;
      }
    }
  }

  /** Ids of the collections that an unanswered in-place call may still change. */
  function InFlightIds(pending: map<nat, Call>): set<string> {
    set i <- pending | pending[i].WholeCall? || pending[i].DeltaCall? :: pending[i].id
  }

  /** The in-place ids in role order. */
  function ReuseIds(config: Config, roles: seq<Role>): seq<string> {
    if roles == [] then []
    else
      var rest := ReuseIds(config, roles[1..]);
      if InPlace(config, roles[0]) then [roles[0].existingId.value] + rest else rest
  }

  lemma {:induction false} ReuseIdsExact(config: Config, roles: seq<Role>)
    ensures forall id :: id in ReuseIds(config, roles) <==>
                         id in (set role <- roles | InPlace(config, role) :: role.existingId.value)
  {
    if roles != [] {
      ReuseIdsExact(config, roles[1..]);
      assert roles == [roles[0]] + roles[1..];
    }
  }

  // ---------- What a role write knows, as values ----------

  function Desired(config: Config, digest: string -> string, i: nat): string
    requires i < |config.roles|
  {
    digest(config.roles[i].payload)
  }

  /** The collection of an in-place role holds, remotely, what the role should hold. */
  ghost predicate Converged(config: Config, digest: string -> string, collections: map<string, string>, i: nat)
    requires i < |config.roles|
  {
    && InPlace(config, config.roles[i])
    && config.roles[i].existingId.value in collections
    && digest(collections[config.roles[i].existingId.value]) == Desired(config, digest, i)
  }

  ghost predicate ResultFits(config: Config, i: nat, result: WriteResult)
    requires i < |config.roles|
  {
    if result.Imported? then !InPlace(config, config.roles[i]) && result.id !in Reusable(config)
    else InPlace(config, config.roles[i]) && result.id == config.roles[i].existingId.value
  }

  ghost predicate CallFits(config: Config, digest: string -> string, snapshots: map<string, string>,
                           attempted: set<string>, i: nat, call: Call)
    requires i < |config.roles|
  {
    match call
    case Unchanged(id) =>
      && InPlace(config, config.roles[i]) && id == config.roles[i].existingId.value
      && id in snapshots && id !in attempted
      && digest(snapshots[id]) == Desired(config, digest, i)
    case MissingSnapshot => InPlace(config, config.roles[i]) && config.roles[i].existingId.value !in snapshots
    case WholeCall(id) => InPlace(config, config.roles[i]) && id == config.roles[i].existingId.value && id in attempted
    case DeltaCall(id) => InPlace(config, config.roles[i]) && id == config.roles[i].existingId.value && id in attempted
    case ImportCall => !InPlace(config, config.roles[i])
  }

  lemma DistinctTargets(config: Config, i: nat, j: nat)
    requires DistinctIds(config.roles) && i < |config.roles| && j < |config.roles| && i != j
    requires InPlace(config, config.roles[i]) && InPlace(config, config.roles[j])
    ensures config.roles[i].existingId.value != config.roles[j].existingId.value
  {
    var a, b := if i < j then i else j, if i < j then j else i;
    assert config.roles[a].existingId != config.roles[b].existingId;
  }

  /** Every role's output names a collection that holds, remotely, what the role should hold. */
  ghost predicate AllDelivered(config: Config, digest: string -> string, outputs: map<string, string>, collections: map<string, string>) {
    forall i :: 0 <= i < |config.roles| ==>
      && config.roles[i].key in outputs && outputs[config.roles[i].key] in collections
      && digest(collections[outputs[config.roles[i].key]]) == Desired(config, digest, i)
  }

  /** The calls, results and digests of the pool of role writes between any two events. */
  datatype Writes = Writes(pending: map<nat, Call>, results: map<nat, WriteResult>, proofs: map<nat, string>)

  function Answered(w: Writes, i: nat, result: Option<WriteResult>, proof: Option<string>): Writes {
    Writes(w.pending - {i}, if result.Some? then w.results[i := result.value] else w.results,
           if proof.Some? then w.proofs[i := proof.value] else w.proofs)
  }

  ghost predicate Results(config: Config, pool: P.Pool, w: Writes) {
    && (forall i :: i in w.results ==> i < |config.roles| && ResultFits(config, i, w.results[i]))
    && (forall i :: i in w.results <==> P.Settled(i, true) in pool.log)
  }

  lemma ResultsAre(config: Config, pool: P.Pool, w: Writes)
    requires Results(config, pool, w)
    ensures forall i :: i in w.results ==> i < |config.roles| && ResultFits(config, i, w.results[i])
    ensures forall i :: i in w.results <==> P.Settled(i, true) in pool.log
  {
  }

  /** Every busy lane waits for a call of its own item, and every awaited call is one that may be made. */
  ghost predicate Awaited(config: Config, digest: string -> string, snapshots: map<string, string>,
                          attempted: set<string>, pool: P.Pool, w: Writes)
  {
    && (forall l :: 0 <= l < |pool.lanes| && pool.lanes[l].Busy? ==> pool.lanes[l].index in w.pending)
    && (forall i :: i in w.pending ==>
          && i < |config.roles| && P.Claimed(i) in pool.log && !P.IsSettled(pool.log, i)
          && CallFits(config, digest, snapshots, attempted, i, w.pending[i]))
  }

  /** Nothing is attempted on behalf of a role that no lane has claimed. */
  ghost predicate NotYetAttempted(config: Config, attempted: set<string>, pool: P.Pool) {
    forall i :: 0 <= i < |config.roles| && InPlace(config, config.roles[i]) && P.Claimed(i) !in pool.log ==>
      config.roles[i].existingId.value !in attempted
  }

  ghost predicate Calls(config: Config, digest: string -> string, snapshots: map<string, string>,
                        attempted: set<string>, pool: P.Pool, w: Writes)
  {
    Awaited(config, digest, snapshots, attempted, pool, w) && NotYetAttempted(config, attempted, pool)
  }

  ghost predicate Proofs(config: Config, digest: string -> string, collections: map<string, string>, w: Writes) {
    forall i :: i in w.proofs ==>
      && i in w.results && i < |config.roles| && w.proofs[i] == Desired(config, digest, i)
      && Converged(config, digest, collections, i) && w.results[i].id == config.roles[i].existingId.value
  }

  /** What is proved of a role survives a change to collections other than its own. */
  lemma OthersKeepProofs(config: Config, digest: string -> string, before: map<string, string>, after: map<string, string>,
                         w: Writes, ids: set<string>)
    requires Proofs(config, digest, before, w)
    requires forall i :: i in w.proofs && i < |config.roles| && InPlace(config, config.roles[i]) ==> config.roles[i].existingId.value !in ids
    requires SameOn(after, before, Reusable(config) - ids)
    ensures Proofs(config, digest, after, w)
  {
    forall i | i in w.proofs ensures Converged(config, digest, after, i) {
      assert config.roles[i].existingId.value in Reusable(config);
    }
  }

  lemma ProvedNotInFlight(config: Config, digest: string -> string, snapshots: map<string, string>, attempted: set<string>,
                          collections: map<string, string>, pool: P.Pool, w: Writes)
    requires DistinctIds(config.roles)
    requires Results(config, pool, w) && Calls(config, digest, snapshots, attempted, pool, w) && Proofs(config, digest, collections, w)
    ensures forall i :: i in w.proofs && i < |config.roles| && InPlace(config, config.roles[i]) ==>
                          config.roles[i].existingId.value !in InFlightIds(w.pending)
  {
    forall i | i in w.proofs && i < |config.roles| && InPlace(config, config.roles[i])
      ensures config.roles[i].existingId.value !in InFlightIds(w.pending)
    {
      forall j | j in w.pending && (w.pending[j].WholeCall? || w.pending[j].DeltaCall?)
        ensures w.pending[j].id != config.roles[i].existingId.value
      {
        DistinctTargets(config, i, j);
      }
    }
  }

  /** A claim registers its own collection only. */
  lemma ClaimKeepsCalls(config: Config, digest: string -> string, snapshots: map<string, string>, attempted: set<string>,
                        attempted': set<string>, pool: P.Pool, pool': P.Pool, w: Writes, call: Call, lane: nat)
    requires DistinctIds(config.roles) && Calls(config, digest, snapshots, attempted, pool, w)
    requires lane < |pool.lanes| && pool.lanes[lane].Ready? && !pool.failed && pool.next < |config.roles|
    requires pool' == P.Step(pool, |config.roles|, P.Resume(lane)) && !P.IsSettled(pool.log, pool.next)
    requires P.Claimed(pool.next) !in pool.log
    requires CallFits(config, digest, snapshots, attempted', pool.next, call) && attempted <= attempted'
    requires forall id :: id in attempted' && id !in attempted ==>
               InPlace(config, config.roles[pool.next]) && id == config.roles[pool.next].existingId.value
    ensures Calls(config, digest, snapshots, attempted', pool', w.(pending := w.pending[pool.next := call]))
  {
    var w' := w.(pending := w.pending[pool.next := call]);
    assert pool'.log == pool.log + [P.Claimed(pool.next)];
    assert forall e :: e in pool'.log <==> e in pool.log || e == P.Claimed(pool.next);
    OthersNotAttempted(config, attempted, attempted', pool.next);
    forall i | i in w'.pending
      ensures i < |config.roles| && P.Claimed(i) in pool'.log && !P.IsSettled(pool'.log, i)
      ensures CallFits(config, digest, snapshots, attempted', i, w'.pending[i])
    {
      if i != pool.next {
        assert CallFits(config, digest, snapshots, attempted, i, w.pending[i]);
      }
    }
  }

  /** A lane that finds no more to do leaves the calls and the results as they are. */
  lemma ExitKeepsCalls(config: Config, digest: string -> string, snapshots: map<string, string>, attempted: set<string>,
                       pool: P.Pool, w: Writes, lane: nat)
    requires lane < |pool.lanes| && pool.lanes[lane].Ready? && (pool.failed || pool.next >= |config.roles|)
    ensures var pool' := P.Step(pool, |config.roles|, P.Resume(lane));
            && (Results(config, pool, w) ==> Results(config, pool', w))
            && (Calls(config, digest, snapshots, attempted, pool, w) ==> Calls(config, digest, snapshots, attempted, pool', w))
  {
  }

  /** Registering one role's collection leaves the other roles' collections unregistered. */
  lemma OthersNotAttempted(config: Config, attempted: set<string>, attempted': set<string>, next: nat)
    requires DistinctIds(config.roles) && next < |config.roles|
    requires forall id :: id in attempted' && id !in attempted ==>
               InPlace(config, config.roles[next]) && id == config.roles[next].existingId.value
    ensures forall i :: 0 <= i < |config.roles| && i != next && InPlace(config, config.roles[i]) ==>
              config.roles[i].existingId.value !in attempted ==> config.roles[i].existingId.value !in attempted'
  {
    forall i | 0 <= i < |config.roles| && i != next && InPlace(config, config.roles[i]) && config.roles[i].existingId.value !in attempted
      ensures config.roles[i].existingId.value !in attempted'
    {
      if InPlace(config, config.roles[next]) {
        DistinctTargets(config, i, next);
      }
    }
  }

  /** An answer moves one item from the calls to the results. */
  lemma FinishKeepsResults(config: Config, pool: P.Pool, pool': P.Pool, w: Writes, i: nat,
                           result: Option<WriteResult>, proof: Option<string>)
    requires Results(config, pool, w) && i < |config.roles|
    requires pool'.log == pool.log + [P.Settled(i, result.Some?)] && !P.IsSettled(pool.log, i)
    requires result.Some? ==> ResultFits(config, i, result.value)
    ensures Results(config, pool', Answered(w, i, result, proof))
  {
    assert forall e :: e in pool'.log <==> e in pool.log || e == P.Settled(i, result.Some?);
  }

  lemma FinishKeepsCalls(config: Config, digest: string -> string, snapshots: map<string, string>, attempted: set<string>,
                         pool: P.Pool, pool': P.Pool, w: Writes, lane: nat, result: Option<WriteResult>, proof: Option<string>)
    requires Calls(config, digest, snapshots, attempted, pool, w)
    requires lane < |pool.lanes| && pool.lanes[lane].Busy? && pool.lanes[lane].index < |config.roles|
    requires pool' == P.Step(pool, |config.roles|, P.Finish(lane, result.Some?))
    requires forall m :: 0 <= m < |pool.lanes| && pool.lanes[m].Busy? && m != lane ==> pool.lanes[m].index != pool.lanes[lane].index
    ensures Calls(config, digest, snapshots, attempted, pool', Answered(w, pool.lanes[lane].index, result, proof))
  {
    var i := pool.lanes[lane].index;
    assert pool'.log == pool.log + [P.Settled(i, result.Some?)];
    assert forall e :: e in pool'.log <==> e in pool.log || e == P.Settled(i, result.Some?);
    var w' := Answered(w, i, result, proof);
    forall j | j in w'.pending
      ensures j < |config.roles| && P.Claimed(j) in pool'.log && !P.IsSettled(pool'.log, j)
      ensures CallFits(config, digest, snapshots, attempted, j, w'.pending[j])
    {
      assert j in w.pending && j != i;
    }
  }

  /** The roots that imports have answered with. */
  ghost predicate Journal(w: Writes, imports: set<string>) {
    forall id :: id in imports <==> exists i :: i in w.results && w.results[i] == Imported(id)
  }

  lemma JournalIsListed(w: Writes, imports: set<string>, ledger: seq<string>)
    requires Journal(w, imports) && forall i :: i in w.results && w.results[i].Imported? ==> w.results[i].id in ledger
    ensures forall id :: id in imports ==> id in ledger
  {
  }

  lemma JournalKept(w: Writes, i: nat, result: Option<WriteResult>, proof: Option<string>, imports: set<string>, imports': set<string>)
    requires Journal(w, imports) && i !in w.results
    requires imports' == imports + (if result.Some? && result.value.Imported? then {result.value.id} else {})
    ensures Journal(Answered(w, i, result, proof), imports')
  {
    var w' := Answered(w, i, result, proof);
    forall id ensures id in imports' <==> exists j :: j in w'.results && w'.results[j] == Imported(id) {
      if id in imports {
        var j :| j in w.results && w.results[j] == Imported(id);
        assert w'.results[j] == Imported(id);
      } else if id in imports' {
        assert w'.results[i] == Imported(id);
      }
    }
  }

  /** A role that is refreshed keeps its collection, and every other role is on a root that was imported. */
  ghost predicate KeepsIds(config: Config, outputs: map<string, string>, imports: set<string>) {
    forall i :: 0 <= i < |config.roles| ==>
      var role := config.roles[i];
      && role.key in outputs
      && if config.refresh && role.existingId.Some? then outputs[role.key] == role.existingId.value else outputs[role.key] in imports
  }

  /** The collection of a role, as the run knows it, holds what the role should hold. */
  ghost predicate Holds(config: Config, digest: string -> string, collections: map<string, string>, w: Writes, i: nat)
    requires i < |config.roles|
  {
    && i in w.results && w.results[i].id in collections
    && digest(collections[w.results[i].id]) == Desired(config, digest, i)
  }

  lemma DeliveredByWrites(config: Config, digest: string -> string, outputs: map<string, string>,
                          collections: map<string, string>, w: Writes)
    requires forall i :: 0 <= i < |config.roles| ==> Holds(config, digest, collections, w, i)
    requires forall i :: 0 <= i < |config.roles| && i in w.results ==>
               config.roles[i].key in outputs && outputs[config.roles[i].key] == w.results[i].id
    ensures AllDelivered(config, digest, outputs, collections)
  {
    forall i | 0 <= i < |config.roles|
      ensures config.roles[i].key in outputs && outputs[config.roles[i].key] in collections
      ensures digest(collections[outputs[config.roles[i].key]]) == Desired(config, digest, i)
    {
      assert Holds(config, digest, collections, w, i);
    }
  }

  lemma DeliveredHolds(config: Config, digest: string -> string, outputs: map<string, string>,
                       collections: map<string, string>, w: Writes)
    requires AllDelivered(config, digest, outputs, collections)
    requires forall i :: 0 <= i < |config.roles| ==>
               i in w.results && config.roles[i].key in outputs && outputs[config.roles[i].key] == w.results[i].id
    ensures forall i :: 0 <= i < |config.roles| ==> Holds(config, digest, collections, w, i)
  {
  }

  /** Before the first event nothing is called, answered or proved. */
  lemma WritesStart(config: Config, digest: string -> string, snapshots: map<string, string>, collections: map<string, string>, k: nat)
    ensures var w := Writes(map[], map[], map[]);
            && Results(config, P.Start(k), w) && Proofs(config, digest, collections, w)
            && Calls(config, digest, snapshots, {}, P.Start(k), w) && Journal(w, {})
  {
  }

  lemma IdsKeptByWrites(config: Config, outputs: map<string, string>, w: Writes, imports: set<string>)
    requires Journal(w, imports)
    requires forall i :: 0 <= i < |config.roles| ==> i in w.results && ResultFits(config, i, w.results[i])
    requires forall i :: 0 <= i < |config.roles| && i in w.results ==>
               config.roles[i].key in outputs && outputs[config.roles[i].key] == w.results[i].id
    ensures KeepsIds(config, outputs, imports)
  {
    forall i | 0 <= i < |config.roles| && !InPlace(config, config.roles[i]) ensures outputs[config.roles[i].key] in imports {
      assert w.results[i] == Imported(w.results[i].id);
    }
  }

  lemma DeliveredElsewhere(config: Config, digest: string -> string, outputs: map<string, string>,
                           before: map<string, string>, after: map<string, string>)
    requires AllDelivered(config, digest, outputs, before) && SameOn(after, before, outputs.Values)
    ensures AllDelivered(config, digest, outputs, after)
  {
    forall i | 0 <= i < |config.roles|
      ensures outputs[config.roles[i].key] in after
      ensures digest(after[outputs[config.roles[i].key]]) == Desired(config, digest, i)
    {
      assert config.roles[i].key in outputs && outputs[config.roles[i].key] in outputs.Values;
    }
  }

  lemma AnswerKeepsProofs(config: Config, digest: string -> string, collections: map<string, string>, pool: P.Pool,
                          w: Writes, i: nat, result: Option<WriteResult>, proof: Option<string>)
    requires Results(config, pool, w) && Proofs(config, digest, collections, w)
    requires i < |config.roles| && i !in w.results
    requires proof.Some? ==>
               && result.Some? && Converged(config, digest, collections, i)
               && result.value.id == config.roles[i].existingId.value && proof.value == Desired(config, digest, i)
    ensures Proofs(config, digest, collections, Answered(w, i, result, proof))
  {
  }

  /** These collections are as the run found them, but for those that are reported. */
  ghost predicate Restored(collections: map<string, string>, base: map<string, string>, ids: set<string>, failures: seq<string>) {
    forall id :: id in ids && id !in failures ==> SameOn(collections, base, {id})
  }

  lemma NoneRestored(collections: map<string, string>, base: map<string, string>)
    ensures Restored(collections, base, {}, [])
  {
  }

  lemma RestoreStep(before: map<string, string>, after: map<string, string>, base: map<string, string>, ids: set<string>,
                    failures: seq<string>, id: string, ok: bool)
    requires Restored(before, base, ids, failures) && id !in ids && SameBut(after, before, {id})
    requires ok ==> SameOn(after, base, {id})
    ensures Restored(after, base, ids + {id}, if ok then failures else failures + [id])
  {
    forall other | other in ids + {id} && other !in failures && (ok || other != id) ensures SameOn(after, base, {other}) {
      if other != id {
        assert SameOn(before, base, {other});
      }
    }
  }

  class BootstrapRun {
    const config: Config
    const remote: Remote
    var tracked: map<string, string>
    var specId: Option<string>
    var createdNewSpec: bool
    var previousSpec: Option<string>
    var specUnchanged: bool
    var deepUpdateSnapshots: map<string, string>
    var attemptedDeepUpdates: set<string>
    var ownedLedger: seq<string>
    var compensated: bool
    var outputs: map<string, string>

    ghost var baseCollections: map<string, string>
    ghost var rollbackCallFailed: bool
    ghost var stateWriteAttempted: bool
    ghost var upload: Upload
    ghost var imports: set<string>
    ghost var cleanupFailed: bool
    ghost var stagesDone: seq<string>
    /** What the writes left, once all of them were answered. */
    ghost var written: Option<map<string, string>>

    constructor (config: Config, remote: Remote, tracked: map<string, string>, specId: Option<string>)
      ensures this.config == config && this.remote == remote
      ensures this.tracked == tracked && this.specId == specId && Fresh()
    {
      this.config, this.remote, this.tracked, this.specId := config, remote, tracked, specId;
      createdNewSpec, previousSpec, specUnchanged := false, None, false;
      deepUpdateSnapshots, attemptedDeepUpdates, ownedLedger := map[], {}, [];
      compensated, outputs := false, map[];
      baseCollections := remote.collections;
      rollbackCallFailed, stateWriteAttempted, upload := false, false, NotSent;
      imports, cleanupFailed, stagesDone, written := {}, false, [], None;
    }

    ghost predicate Fresh()
      reads this, remote
    {
      && !createdNewSpec && previousSpec == None && !specUnchanged
      && deepUpdateSnapshots == map[] && attemptedDeepUpdates == {} && ownedLedger == [] && !compensated
      && baseCollections == remote.collections
      && !rollbackCallFailed && !stateWriteAttempted && upload == NotSent
      && imports == {} && !cleanupFailed && stagesDone == [] && written == None
    }

    /**
     Every reusable collection that has not been attempted is as the run found it, every attempted
     one has a snapshot, and a snapshot is what the run found.
     */
    ghost predicate Recoverable()
      reads this`attemptedDeepUpdates, this`deepUpdateSnapshots, this`baseCollections, this`ownedLedger, remote`collections
    {
      && attemptedDeepUpdates <= deepUpdateSnapshots.Keys <= Reusable(config)
      && SameOn(remote.collections, baseCollections, Reusable(config) - attemptedDeepUpdates)
      && (forall id :: id in attemptedDeepUpdates ==> id in remote.collections)
      && (forall id :: id in deepUpdateSnapshots ==>
            id in baseCollections && deepUpdateSnapshots[id] == baseCollections[id])
      && (forall id :: id in ownedLedger ==> id !in Reusable(config))
    }

    /** Every root that an import answered with is in the ledger. */
    ghost predicate AllJournaled()
      reads this`imports, this`ownedLedger
    {
      forall id :: id in imports ==> id in ownedLedger
    }

    /** Unless the clean-up itself failed, no root of the ledger is left. */
    ghost predicate CleanedUp()
      reads this`compensated, this`cleanupFailed, this`ownedLedger, remote`collections
    {
      compensated && (cleanupFailed || forall id :: id in ownedLedger ==> id !in remote.collections)
    }

    /**
     What can end a run on which no call fails: a missing capability, a collection that should be refreshed and
     is not there, or writes that left something else than what was wanted.
     */
    ghost predicate Hindered(found: map<string, string>)
      reads this`outputs, this`written
    {
      || !config.canDeepUpdate
      || !config.canExport
      || !(Reusable(config) <= found.Keys)
      || (written.Some? && !AllDelivered(config, remote.digest, outputs, written.value))
    }

    // ---------- Compensation ----------

    /** Every attempted collection is tried, whatever becomes of the others. */
    method RestoreAll() returns (failures: seq<string>)
      requires Recoverable()
      modifies remote`collections, remote`faults
      ensures Recoverable()
      ensures remote.faults >= old(remote.faults) && (failures != [] ==> remote.faults > old(remote.faults))
      ensures Restored(remote.collections, baseCollections, attemptedDeepUpdates, failures)
      ensures SameBut(remote.collections, old(remote.collections), Reusable(config))
    {
      hide Restored, Reusable;
      var todo := attemptedDeepUpdates;
      failures := [];
      ghost var done: set<string> := {};
      NoneRestored(remote.collections, baseCollections);
      while todo != {}
        invariant forall id :: id in attemptedDeepUpdates ==> id in remote.collections
        invariant done !! todo && done + todo == attemptedDeepUpdates && Restored(remote.collections, baseCollections, done, failures)
        invariant remote.faults >= old(remote.faults) && (failures != [] ==> remote.faults > old(remote.faults))
        invariant SameBut(remote.collections, old(remote.collections), attemptedDeepUpdates)
        decreases todo
        modifies remote`collections, remote`faults
      {
        var id :| id in todo;
        ghost var before, failed := remote.collections, failures;
        todo := todo - {id};
        if id !in deepUpdateSnapshots {
          failures := failures + [id];
        } else {
          var restored := remote.DeepUpdate(id, deepUpdateSnapshots[id]);
          if !restored {
            failures := failures + [id];
          }
        }
        RestoreStep(before, remote.collections, baseCollections, done, failed, id, failures == failed);
        done := done + {id};
      }
    }

    method RestoreAttemptedDeepUpdates() returns (ok: bool)
      requires Recoverable()
      modifies this`attemptedDeepUpdates, this`rollbackCallFailed, remote`collections, remote`faults
      ensures Recoverable()
      ensures remote.faults >= old(remote.faults) && (!ok && config.canDeepUpdate ==> remote.faults > old(remote.faults))
      ensures old(attemptedDeepUpdates) == {} ==> ok
      ensures ok ==> attemptedDeepUpdates == {}
      ensures !ok ==> attemptedDeepUpdates == old(attemptedDeepUpdates) && rollbackCallFailed
      ensures rollbackCallFailed == (old(rollbackCallFailed) || !ok)
      ensures SameBut(remote.collections, old(remote.collections), Reusable(config))
      ensures old(CleanedUp()) ==> CleanedUp()
    {
      if attemptedDeepUpdates == {} {
        return true;
      }
      if !config.canDeepUpdate {
        rollbackCallFailed := true;
        return false;
      }
      var failures := RestoreAll();
      ok := failures == [];
      if ok {
        attemptedDeepUpdates := {};
      } else {
        rollbackCallFailed := true;
      }
    }

    method CompensateOwnedImports()
      requires Recoverable()
      modifies this`compensated, this`cleanupFailed, remote`collections, remote`faults
      ensures Recoverable()
      ensures remote.faults >= old(remote.faults)
      ensures cleanupFailed ==> old(cleanupFailed) || remote.faults > old(remote.faults) || !config.canDeleteImports
      ensures old(compensated) ==> remote.collections == old(remote.collections) && cleanupFailed == old(cleanupFailed) && compensated
      ensures !old(compensated) || old(CleanedUp()) ==> CleanedUp()
    {
      if compensated {
        return;
      }
      compensated := true;
      if ownedLedger != [] {
        // A failed clean-up of imports is only reported.
        var cleaned := false;
        if config.canDeleteImports {
          cleaned := remote.DeleteImports(ownedLedger, Reusable(config));
        }
        cleanupFailed := cleanupFailed || !cleaned;
      }
    }

    /** Rolls back what the collection stages did and names the error that is thrown. */
    method FailOwned(stage: string) returns (error: Error)
      requires Recoverable()
      modifies this`attemptedDeepUpdates, this`rollbackCallFailed, this`compensated, this`cleanupFailed
      modifies remote`collections, remote`faults
      ensures Recoverable()
      ensures remote.faults >= old(remote.faults) && (error.CollectionRollbackFailed? && config.canDeepUpdate ==> remote.faults > old(remote.faults))
      ensures cleanupFailed ==> old(cleanupFailed) || remote.faults > old(remote.faults) || !config.canDeleteImports
      ensures error == OrchestrationFailed(stage) || error == CollectionRollbackFailed
      ensures error.CollectionRollbackFailed? ==> rollbackCallFailed
      ensures rollbackCallFailed == (old(rollbackCallFailed) || error.CollectionRollbackFailed?)
      ensures !error.CollectionRollbackFailed? ==> attemptedDeepUpdates == {}
      ensures !old(compensated) || old(CleanedUp()) ==> CleanedUp()
    {
      var restored := RestoreAttemptedDeepUpdates();
      CompensateOwnedImports();
      error := if restored then OrchestrationFailed(stage) else CollectionRollbackFailed;
    }

    /** Up to three tries, and a failure only after all of them. */
    method RestorePreviousSpec(isSpecUpdate: bool) returns (ok: bool, ghost tries: nat)
      modifies this`rollbackCallFailed, remote`specs, remote`faults
      ensures remote.faults >= old(remote.faults)
      ensures !ok && (isSpecUpdate && !createdNewSpec && specId.Some? ==> previousSpec.Some? && specId.value in old(remote.specs)) ==>
                remote.faults > old(remote.faults)
      ensures rollbackCallFailed == (old(rollbackCallFailed) || !ok)
      ensures tries <= 3 && (!ok ==> tries == 3)
      ensures tries > 1 && (isSpecUpdate && !createdNewSpec && specId.Some? ==> previousSpec.Some? && specId.value in old(remote.specs)) ==>
                remote.faults > old(remote.faults)
      ensures ok && specId.Some? && createdNewSpec && config.canDeleteSpec ==>
                remote.specs == old(remote.specs) - {specId.value}
      ensures ok && specId.Some? && !createdNewSpec && isSpecUpdate ==>
                previousSpec.Some? && remote.specs == old(remote.specs)[specId.value := previousSpec.value]
      ensures specId.None? || (createdNewSpec && !config.canDeleteSpec) || (!createdNewSpec && !isSpecUpdate) ==>
                ok && remote.specs == old(remote.specs)
    {
      tries := 0;
      if specId.None? {
        return true, 0;
      }
      var id := specId.value;
      ok := false;
      if createdNewSpec {
        if !config.canDeleteSpec {
          return true, 0;
        }
        var attempt := 0;
        while attempt < 3 && !ok
          invariant tries == attempt <= 3
          invariant remote.specs == old(remote.specs) || remote.specs == old(remote.specs) - {id}
          invariant ok ==> remote.specs == old(remote.specs) - {id}
          invariant remote.faults >= old(remote.faults)
          invariant attempt > 1 || (attempt > 0 && !ok) ==> remote.faults > old(remote.faults)
          modifies remote`specs, remote`faults
        {
          ok := remote.DeleteSpec(id);
          attempt := attempt + 1;
          tries := attempt;
        }
      } else if !isSpecUpdate {
        return true, 0;
      } else {
        var attempt := 0;
        while attempt < 3 && !ok
          invariant tries == attempt <= 3
          invariant SameBut(remote.specs, old(remote.specs), {id})
          invariant ok ==> previousSpec.Some? && id in remote.specs && remote.specs[id] == previousSpec.value
          invariant id in old(remote.specs) ==> id in remote.specs
          invariant remote.faults >= old(remote.faults)
          invariant attempt > 1 || (attempt > 0 && !ok) ==>
                      remote.faults > old(remote.faults) || previousSpec.None? || (config.multiFile && id !in old(remote.specs))
          modifies remote`specs, remote`faults
        {
          if previousSpec.Some? {
            if config.multiFile {
              var reply, prior := remote.ReconcileBundle(id, previousSpec.value);
              ok := reply.Reconciled?;
            } else {
              ok := remote.UpdateSpec(id, previousSpec.value);
            }
          }
          attempt := attempt + 1;
          tries := attempt;
        }
      }
      if !ok {
        rollbackCallFailed := true;
      }
    }

    // ---------- Specification ----------

    method SyncSpec() returns (failure: Option<Error>)
      requires !createdNewSpec && !specUnchanged && (specId.Some? ==> previousSpec.Some?)
      modifies this`specId, this`createdNewSpec, this`previousSpec, this`specUnchanged, this`upload, remote`specs, remote`faults
      ensures failure == None || failure == Some(Failed("spec"))
      ensures remote.faults >= old(remote.faults)
      ensures failure.Some? && (old(specId).Some? ==> old(specId).value in old(remote.specs)) ==> remote.faults > old(remote.faults)
      ensures old(specId).Some? && old(specId).value in old(remote.specs) ==> old(specId).value in remote.specs
      ensures old(specId).Some? ==>
                && specId == old(specId) && !createdNewSpec && previousSpec.Some?
                && (previousSpec == old(previousSpec)
                    || (config.multiFile && specId.value in old(remote.specs) && previousSpec.value == old(remote.specs)[specId.value]))
                && SameBut(remote.specs, old(remote.specs), {specId.value})
      ensures old(specId).Some? && failure.None? ==>
                && (specUnchanged <==> previousSpec.value == config.upload)
                && remote.specs == if specUnchanged then old(remote.specs) else old(remote.specs)[specId.value := config.upload]
      ensures old(specId).None? ==> !specUnchanged
      ensures old(specId).None? ==>
                && upload.Sent? && upload.after == remote.specs && UploadFits(config, old(remote.specs), upload)
                && specId == (if Confirmed(config, upload.reply) then Some(upload.reply.id) else None)
                && createdNewSpec == (Confirmed(config, upload.reply) && upload.reply.created)
                && (failure.None? <==> Confirmed(config, upload.reply))
    {
      failure := None;
      if specId.Some? {
        if config.multiFile {
          var reply, prior := remote.ReconcileBundle(specId.value, config.upload);
          match reply {
            case ReconcileThrew =>
              return Some(Failed("spec"));
            case VerificationNeeded =>
              previousSpec := Some(prior);
              return Some(Failed("spec"));
            case Reconciled(changed) =>
              previousSpec := Some(prior);
              specUnchanged := !changed;
          }
        } else if previousSpec == Some(config.upload) {
          specUnchanged := true;
        } else {
          var ok := remote.UpdateSpec(specId.value, config.upload);
          if !ok {
            return Some(Failed("spec"));
          }
        }
      } else {
        var reply := remote.UploadSpec(config.upload);
        upload := Sent(reply, remote.specs);
        // An unconfirmed multi-file create throws before the run learns the new id.
        if reply.UploadThrew? || (config.multiFile && !reply.verified) {
          return Some(Failed("spec"));
        }
        specId, createdNewSpec := Some(reply.id), reply.created;
      }
    }

    // ---------- Collections ----------

    /** Two lanes read a rollback snapshot of every collection that will be written in place. */
    method SnapshotCollections() returns (failed: bool, ghost events: seq<P.Event>)
      requires Recoverable() && attemptedDeepUpdates == {}
      modifies this`deepUpdateSnapshots, remote`faults
      ensures Recoverable()
      ensures remote.faults >= old(remote.faults)
      ensures failed && Reusable(config) <= remote.collections.Keys ==> remote.faults > old(remote.faults)
      ensures !failed ==> deepUpdateSnapshots.Keys == Reusable(config)
      ensures P.WholeRun(2, |ReuseIds(config, config.roles)|, events)
    {
      var ids := ReuseIds(config, config.roles);
      var n := |ids|;
      ReuseIdsExact(config, config.roles);
      assert forall i :: 0 <= i < n ==> ids[i] in ids;
      var pool := P.Start(2);
      events := [];
      while !P.Joined(pool)
        invariant P.Run(2, n, events) == Some(pool)
        invariant Recoverable()
        invariant forall i :: 0 <= i < n && P.Settled(i, true) in pool.log ==> ids[i] in deepUpdateSnapshots
        invariant remote.faults >= old(remote.faults)
        invariant pool.failed && Reusable(config) <= remote.collections.Keys ==> remote.faults > old(remote.faults)
        decreases P.Remaining(pool, n)
        modifies this`deepUpdateSnapshots, remote`faults
      {
        var lane :| 0 <= lane < |pool.lanes| && !pool.lanes[lane].Exited?;
        var event := P.Resume(lane);
        if pool.lanes[lane].Busy? {
          var index := pool.lanes[lane].index;
          P.BusyLane(2, n, events, pool, lane);
          var exported := remote.ExportCollection(ids[index]);
          if exported.Some? {
            deepUpdateSnapshots := deepUpdateSnapshots[ids[index] := exported.value];
          }
          event := P.Finish(lane, exported.Some?);
        }
        P.RunSnoc(2, n, events, pool, event);
        events := events + [event];
        pool := P.Step(pool, n, event);
      }
      P.JoinSettlesEverything(2, n, events, pool);
      failed := pool.failed;
      if !failed {
        forall id | id in Reusable(config) ensures id in deepUpdateSnapshots {
          assert id in ids;
          var i :| 0 <= i < n && ids[i] == id;
          assert P.Settled(i, true) in pool.log;
        }
      }
    }

    /** The part of a role write that runs before its first await: the id is registered before the call. */
    method BeginWrite(i: nat) returns (call: Call)
      requires i < |config.roles| && Recoverable()
      requires InPlace(config, config.roles[i]) ==> config.roles[i].existingId.value !in attemptedDeepUpdates
      modifies this`attemptedDeepUpdates
      ensures Recoverable() && CallFits(config, remote.digest, deepUpdateSnapshots, attemptedDeepUpdates, i, call)
      ensures old(attemptedDeepUpdates) <= attemptedDeepUpdates
      ensures forall id :: id in attemptedDeepUpdates && id !in old(attemptedDeepUpdates) ==>
                InPlace(config, config.roles[i]) && id == config.roles[i].existingId.value
      ensures InPlace(config, config.roles[i]) && config.roles[i].existingId.value in deepUpdateSnapshots
              && remote.digest(deepUpdateSnapshots[config.roles[i].existingId.value]) == Desired(config, remote.digest, i) ==>
                call == Unchanged(config.roles[i].existingId.value)
      ensures (call.DeltaCall? ==> config.useDelta) && (call.WholeCall? ==> !config.useDelta)
      ensures attemptedDeepUpdates == old(attemptedDeepUpdates) + (if call.WholeCall? || call.DeltaCall? then {call.id} else {})
    {
      var role := config.roles[i];
      if !InPlace(config, role) {
        return ImportCall;
      }
      var id := role.existingId.value;
      assert id in Reusable(config);
      if id !in deepUpdateSnapshots {
        return MissingSnapshot;
      }
      if remote.digest(deepUpdateSnapshots[id]) == Desired(config, remote.digest, i) {
        return Unchanged(id);
      }
      attemptedDeepUpdates := attemptedDeepUpdates + {id};
      call := if config.useDelta then DeltaCall(id) else WholeCall(id);
    }

    /** The answer to a role write, and a digest when the answer already proves it. */
    method FinishWrite(i: nat, call: Call) returns (result: Option<WriteResult>, proof: Option<string>)
      requires i < |config.roles| && Recoverable() && CallFits(config, remote.digest, deepUpdateSnapshots, attemptedDeepUpdates, i, call)
      modifies this`imports, remote`collections, remote`faults
      ensures Recoverable()
      ensures remote.faults >= old(remote.faults)
      ensures result.None? && !call.MissingSnapshot? ==> remote.faults > old(remote.faults)
      ensures remote.faults == old(remote.faults) && result.Some? ==>
                && result.value.id in remote.collections
                && remote.digest(remote.collections[result.value.id]) == Desired(config, remote.digest, i)
      ensures call.MissingSnapshot? ==> result.None?
      ensures call.Unchanged? ==> proof.Some?
      ensures remote.faults == old(remote.faults) && result.Some? && result.value.DeltaUpdated? ==> proof.Some?
      ensures imports == old(imports) + (if result.Some? && result.value.Imported? then {result.value.id} else {})
      ensures call.WholeCall? || call.DeltaCall? ==>
                SameBut(remote.collections, old(remote.collections), {config.roles[i].existingId.value})
      ensures !call.WholeCall? && !call.DeltaCall? ==>
                SameOn(remote.collections, old(remote.collections), Reusable(config))
      ensures result.Some? ==> ResultFits(config, i, result.value)
      ensures proof.Some? ==> result.Some? && InPlace(config, config.roles[i]) && result.value.id == config.roles[i].existingId.value
      ensures proof.Some? ==> proof.value == Desired(config, remote.digest, i) && Converged(config, remote.digest, remote.collections, i)
    {
      result, proof := None, None;
      var payload := config.roles[i].payload;
      match call {
        case Unchanged(id) =>
          result, proof := Some(Kept(id)), Some(remote.digest(deepUpdateSnapshots[id]));
        case MissingSnapshot =>
        case WholeCall(id) =>
          var ok := remote.DeepUpdate(id, payload);
          if ok {
            result := Some(DeepUpdated(id));
          }
        case DeltaCall(id) =>
          var reply := remote.ApplyDelta(id, payload);
          match reply {
            case DeltaApplied(observed) =>
              result := Some(DeltaUpdated(id));
              if observed == Desired(config, remote.digest, i) {
                proof := Some(observed);
              }
            case WholeApplied =>
              result := Some(DeepUpdated(id));
            case DeltaThrew =>
          }
        case ImportCall =>
          var root := remote.ImportCollection(payload, Reusable(config));
          if root.Some? {
            result := Some(Imported(root.value));
            imports := imports + {root.value};
          }
      }
    }

    /** Role writes: every fresh import at once, otherwise two lanes over the roles. */
    method WriteRoles() returns (w: Writes, failed: bool, ghost events: seq<P.Event>)
      requires Recoverable() && attemptedDeepUpdates == {} && DistinctIds(config.roles) && imports == {}
      requires deepUpdateSnapshots.Keys == Reusable(config)
      modifies this`attemptedDeepUpdates, this`imports, remote`collections, remote`faults
      ensures remote.faults >= old(remote.faults) && (failed ==> remote.faults > old(remote.faults))
      ensures P.WholeRun(if Reusable(config) == {} && config.roles != [] then |config.roles| else 2, |config.roles|, events)
      ensures Journal(w, imports)
      ensures Recoverable()
      ensures forall i :: i in w.results ==> i < |config.roles| && ResultFits(config, i, w.results[i])
      ensures Proofs(config, remote.digest, remote.collections, w)
      ensures !failed ==> forall i :: 0 <= i < |config.roles| ==> i in w.results
    {
      hide Recoverable, Results, Proofs, Calls, Journal, DistinctIds, ResultFits;
      var n := |config.roles|;
      var k := if Reusable(config) == {} && n > 0 then n else 2;
      var pool := P.Start(k);
      events := [];
      w := Writes(map[], map[], map[]);
      WritesStart(config, remote.digest, deepUpdateSnapshots, remote.collections, k);
      while !P.Joined(pool)
        invariant P.Run(k, n, events) == Some(pool)
        invariant Recoverable() && Results(config, pool, w) && Proofs(config, remote.digest, remote.collections, w)
        invariant Calls(config, remote.digest, deepUpdateSnapshots, attemptedDeepUpdates, pool, w)
        invariant Journal(w, imports)
        invariant remote.faults >= old(remote.faults) && (pool.failed ==> remote.faults > old(remote.faults))
        decreases P.Remaining(pool, n)
        modifies this`attemptedDeepUpdates, this`imports, remote`collections, remote`faults
      {
        LandAny(pool, w);
        var lane :| 0 <= lane < |pool.lanes| && !pool.lanes[lane].Exited?;
        var event := P.Resume(lane);
        if pool.lanes[lane].Busy? {
          event, w := Settle(k, events, pool, lane, w);
        } else if !pool.failed && pool.next < n {
          w := Claim(k, events, pool, lane, w);
        } else {
          ExitKeepsCalls(config, remote.digest, deepUpdateSnapshots, attemptedDeepUpdates, pool, w, lane);
        }
        P.RunSnoc(k, n, events, pool, event);
        events := events + [event];
        pool := P.Step(pool, n, event);
      }
      P.JoinSettlesEverything(k, n, events, pool);
      ResultsAre(config, pool, w);
      failed := pool.failed;
    }

    method LandAny(ghost pool: P.Pool, w: Writes)
      requires Recoverable() && DistinctIds(config.roles)
      requires Results(config, pool, w) && Proofs(config, remote.digest, remote.collections, w)
      requires Calls(config, remote.digest, deepUpdateSnapshots, attemptedDeepUpdates, pool, w)
      modifies remote`collections
      ensures Recoverable() && Proofs(config, remote.digest, remote.collections, w)
    {
      ProvedNotInFlight(config, remote.digest, deepUpdateSnapshots, attemptedDeepUpdates, remote.collections, pool, w);
      ghost var before := remote.collections;
      assert InFlightIds(w.pending) <= attemptedDeepUpdates;
      remote.Land(InFlightIds(w.pending), Reusable(config));
      OthersKeepProofs(config, remote.digest, before, remote.collections, w, InFlightIds(w.pending));
    }

    method Claim(ghost k: nat, ghost events: seq<P.Event>, pool: P.Pool, lane: nat, w: Writes) returns (w': Writes)
      requires P.Run(k, |config.roles|, events) == Some(pool)
      requires lane < |pool.lanes| && pool.lanes[lane].Ready? && !pool.failed && pool.next < |config.roles|
      requires Recoverable() && DistinctIds(config.roles)
      requires Results(config, pool, w) && Proofs(config, remote.digest, remote.collections, w)
      requires Calls(config, remote.digest, deepUpdateSnapshots, attemptedDeepUpdates, pool, w)
      modifies this`attemptedDeepUpdates
      ensures Recoverable() && w'.results == w.results
      ensures Journal(w, imports) ==> Journal(w', imports)
      ensures var pool' := P.Step(pool, |config.roles|, P.Resume(lane));
              && Results(config, pool', w') && Proofs(config, remote.digest, remote.collections, w')
              && Calls(config, remote.digest, deepUpdateSnapshots, attemptedDeepUpdates, pool', w')
    {
      P.NextIsNew(k, |config.roles|, events, pool);
      var call := BeginWrite(pool.next);
      w' := w.(pending := w.pending[pool.next := call]);
      ClaimKeepsCalls(config, remote.digest, deepUpdateSnapshots, old(attemptedDeepUpdates), attemptedDeepUpdates,
                      pool, P.Step(pool, |config.roles|, P.Resume(lane)), w, call, lane);
    }

    method Settle(ghost k: nat, ghost events: seq<P.Event>, pool: P.Pool, lane: nat, w: Writes) returns (event: P.Event, w': Writes)
      requires P.Run(k, |config.roles|, events) == Some(pool)
      requires lane < |pool.lanes| && pool.lanes[lane].Busy?
      requires Recoverable() && DistinctIds(config.roles)
      requires Results(config, pool, w) && Proofs(config, remote.digest, remote.collections, w)
      requires Calls(config, remote.digest, deepUpdateSnapshots, attemptedDeepUpdates, pool, w)
      requires Journal(w, imports) && deepUpdateSnapshots.Keys == Reusable(config)
      modifies this`imports, remote`collections, remote`faults
      ensures Recoverable() && Journal(w', imports)
      ensures P.Enabled(pool, event) && event.Finish?
      ensures remote.faults >= old(remote.faults) && (!event.ok ==> remote.faults > old(remote.faults))
      ensures var pool' := P.Step(pool, |config.roles|, event);
              && Results(config, pool', w') && Proofs(config, remote.digest, remote.collections, w')
              && Calls(config, remote.digest, deepUpdateSnapshots, attemptedDeepUpdates, pool', w')
    {
      P.BusyLane(k, |config.roles|, events, pool, lane);
      var i := pool.lanes[lane].index;
      ProvedNotInFlight(config, remote.digest, deepUpdateSnapshots, attemptedDeepUpdates, remote.collections, pool, w);
      ghost var before := remote.collections;
      var call := w.pending[i];
      var result, proof := FinishWrite(i, call);
      OthersKeepProofs(config, remote.digest, before, remote.collections, w, InFlightIds(w.pending));
      event := P.Finish(lane, result.Some?);
      FinishKeepsResults(config, pool, P.Step(pool, |config.roles|, event), w, i, result, proof);
      FinishKeepsCalls(config, remote.digest, deepUpdateSnapshots, attemptedDeepUpdates,
                       pool, P.Step(pool, |config.roles|, event), w, lane, result, proof);
      w' := Answered(w, i, result, proof);
      JournalKept(w, i, result, proof, old(imports), imports);
      AnswerKeepsProofs(config, remote.digest, remote.collections, pool, w, i, result, proof);
    }

    /** Two lanes read back one role each; a clean join proves every role. */
    method VerifyRoles(w: Writes) returns (observed: map<nat, string>, failed: bool, ghost events: seq<P.Event>)
      requires Proofs(config, remote.digest, remote.collections, w)
      modifies remote`faults
      ensures remote.faults >= old(remote.faults)
      ensures failed && AllReadable(w) ==> remote.faults > old(remote.faults)
      ensures P.WholeRun(2, |config.roles|, events)
      ensures !failed ==> forall i :: 0 <= i < |config.roles| ==>
                            i in observed && observed[i] == Desired(config, remote.digest, i) && Holds(config, remote.digest, remote.collections, w, i)
    {
      hide AllReadable, Readable, Holds, Proofs, Desired;
      var n := |config.roles|;
      var pool := P.Start(2);
      events := [];
      observed := map[];
      while !P.Joined(pool)
        invariant P.Run(2, n, events) == Some(pool)
        invariant forall i :: 0 <= i < n && P.Settled(i, true) in pool.log ==>
                    i in observed && observed[i] == Desired(config, remote.digest, i) && Holds(config, remote.digest, remote.collections, w, i)
        invariant remote.faults >= old(remote.faults)
        invariant pool.failed && AllReadable(w) ==> remote.faults > old(remote.faults)
        decreases P.Remaining(pool, n)
        modifies remote`faults
      {
        var lane :| 0 <= lane < |pool.lanes| && !pool.lanes[lane].Exited?;
        var event := P.Resume(lane);
        if pool.lanes[lane].Busy? {
          P.BusyLane(2, n, events, pool, lane);
          var i := pool.lanes[lane].index;
          EachReadable(w, i);
          var ok, digest := VerifyRole(w, i);
          if ok || digest.Some? {
            observed := if digest.Some? then observed[i := digest.value] else observed;
          }
          event := P.Finish(lane, ok);
        }
        P.RunSnoc(2, n, events, pool, event);
        events := events + [event];
        pool := P.Step(pool, n, event);
      }
      P.JoinSettlesEverything(2, n, events, pool);
      failed := pool.failed;
    }

    /** A role's collection holds what it should, and there is a way to see it. */
    ghost predicate Readable(i: nat, w: Writes)
      requires i < |config.roles|
      reads remote`collections
    {
      && Holds(config, remote.digest, remote.collections, w, i)
      && (config.canExport || (config.canVerifyReceipt && (w.results[i].Imported? || w.results[i].DeepUpdated?)))
    }

    ghost predicate AllReadable(w: Writes)
      reads remote`collections
    {
      forall i :: 0 <= i < |config.roles| ==> Readable(i, w)
    }

    lemma EachReadable(w: Writes, i: nat)
      requires i < |config.roles|
      ensures AllReadable(w) ==> Readable(i, w)
    {
    }

    method VerifyRole(w: Writes, i: nat) returns (ok: bool, observed: Option<string>)
      requires i < |config.roles| && Proofs(config, remote.digest, remote.collections, w)
      modifies remote`faults
      ensures remote.faults >= old(remote.faults)
      ensures !ok && Readable(i, w) ==> remote.faults > old(remote.faults)
      ensures i in w.proofs ==> ok && remote.faults == old(remote.faults)
      ensures ok && i !in w.proofs && i in w.results ==>
                config.canExport || (config.canVerifyReceipt && (w.results[i].Imported? || w.results[i].DeepUpdated?))
      ensures ok ==> observed == Some(Desired(config, remote.digest, i)) && Holds(config, remote.digest, remote.collections, w, i)
    {
      ok, observed := false, None;
      if i !in w.results {
        return;
      }
      var desired := Desired(config, remote.digest, i);
      var result := w.results[i];
      if i in w.proofs {
        return true, Some(w.proofs[i]);
      }
      if (result.Imported? || result.DeepUpdated?) && config.canVerifyReceipt {
        ok := remote.VerifyReceipt(result.id, desired);
        observed := if ok then Some(desired) else None;
      } else if config.canExport {
        var exported := remote.ExportCollection(result.id);
        if exported.Some? {
          observed := Some(remote.digest(exported.value));
          ok := observed == Some(desired);
        }
      }
    }

    /** Publishes the ids of the answered writes and remembers which roots the run imported. */
    method RecordWrites(w: Writes)
      requires Recoverable() && forall i :: i in w.results ==> i < |config.roles| && ResultFits(config, i, w.results[i])
      requires DistinctKeys(config.roles)
      modifies this`outputs, this`ownedLedger
      ensures Recoverable()
      ensures forall i :: 0 <= i < |config.roles| && i in w.results ==>
                config.roles[i].key in outputs && outputs[config.roles[i].key] == w.results[i].id
      ensures Journal(w, imports) ==> AllJournaled()
    {
      hide Journal, Reusable, DistinctIds;
      for i := 0 to |config.roles|
        invariant Recoverable()
        invariant forall j :: 0 <= j < i && j in w.results ==>
                    config.roles[j].key in outputs && outputs[config.roles[j].key] == w.results[j].id
        invariant forall j :: 0 <= j < i && j in w.results && w.results[j].Imported? ==> w.results[j].id in ownedLedger
      {
        if i in w.results {
          outputs := outputs[config.roles[i].key := w.results[i].id];
          if w.results[i].Imported? && w.results[i].id !in ownedLedger {
            ownedLedger := ownedLedger + [w.results[i].id];
          }
        }
      }
      if Journal(w, imports) {
        JournalIsListed(w, imports, ownedLedger);
      }
    }

    /** Conversion, materialization and rollback snapshots; nothing remote has been written when it fails. */
    method PrepareCollections() returns (failure: Option<Error>)
      requires Recoverable() && attemptedDeepUpdates == {} && !compensated
      modifies this`deepUpdateSnapshots, this`attemptedDeepUpdates, this`rollbackCallFailed, this`compensated, this`cleanupFailed
      modifies remote`collections, remote`faults
      ensures Recoverable()
      ensures remote.faults >= old(remote.faults)
      ensures failure.Some? && !Hindered(old(remote.collections)) ==> remote.faults > old(remote.faults)
      ensures failure == Some(CollectionRollbackFailed) && config.canDeepUpdate ==> remote.faults > old(remote.faults)
      ensures cleanupFailed ==> old(cleanupFailed) || remote.faults > old(remote.faults) || !config.canDeleteImports
      ensures failure.Some? && failure.value.Failed? <==> !config.canDeepUpdate
      ensures failure.Some? && failure.value.OrchestrationFailed? ==>
                || failure.value.stage == "local-conversion"
                || failure.value.stage == "materialize-artifacts"
                || (failure.value.stage == "collection-preflight" && Reusable(config) != {})
      ensures failure.None? ==> deepUpdateSnapshots.Keys == Reusable(config)
      ensures failure.None? ==> attemptedDeepUpdates == {} && rollbackCallFailed == old(rollbackCallFailed) && !compensated
      ensures failure.Some? ==> StageError(failure.value, old(rollbackCallFailed), rollbackCallFailed) && (compensated ==> CleanedUp())
    {
      var stage: Option<string> := None;
      if !config.canDeepUpdate {
        return Some(Failed("generate"));
      }
      var fails := remote.StepFails();
      if fails {
        stage := Some("local-conversion");
      } else {
        fails := remote.StepFails();
        if fails {
          stage := Some("materialize-artifacts");
        } else if Reusable(config) != {} {
          var noSnapshot := true;
          if config.canExport {
            ghost var events;
            noSnapshot, events := SnapshotCollections();
          }
          stage := if noSnapshot then Some("collection-preflight") else None;
        }
      }
      failure := None;
      if stage.Some? {
        var error := FailOwned(stage.value);
        failure := Some(error);
      }
    }

    /** Writes and verification; the stage that fails, if one does. */
    method WriteAll() returns (stage: Option<string>)
      requires Recoverable() && attemptedDeepUpdates == {} && DistinctIds(config.roles) && DistinctKeys(config.roles)
      requires imports == {} && written.None? && deepUpdateSnapshots.Keys == Reusable(config)
      modifies this`attemptedDeepUpdates, this`ownedLedger, this`outputs, this`imports, this`written, remote`collections, remote`faults
      ensures Recoverable() && AllJournaled()
      ensures remote.faults >= old(remote.faults)
      ensures stage.Some? && !Hindered(old(remote.collections)) ==> remote.faults > old(remote.faults)
      ensures stage.Some? ==> stage.value == if written.None? then "cloud-collection-write" else "collection-final-verification"
      ensures stage.None? ==> AllDelivered(config, remote.digest, outputs, remote.collections) && KeepsIds(config, outputs, imports)
    {
      hide Recoverable, AllDelivered, KeepsIds, ResultFits, Proofs, Journal, Holds, CleanedUp, DistinctIds, DistinctKeys, Reusable;
      ghost var events;
      var w, failed;
      w, failed, events := WriteRoles();
      RecordWrites(w);
      if failed {
        return Some("cloud-collection-write");
      }
      written := Some(remote.collections);
      if AllDelivered(config, remote.digest, outputs, remote.collections) {
        DeliveredHolds(config, remote.digest, outputs, remote.collections, w);
      }
      if config.canExport || config.canVerifyReceipt {
        var observed;
        observed, failed, events := VerifyRoles(w);
        if !failed {
          DeliveredByWrites(config, remote.digest, outputs, remote.collections, w);
          IdsKeptByWrites(config, outputs, w, imports);
          return None;
        }
      }
      stage := Some("collection-final-verification");
    }

    method WriteAndVerify() returns (failure: Option<Error>)
      requires Recoverable() && attemptedDeepUpdates == {} && DistinctIds(config.roles) && DistinctKeys(config.roles)
      requires imports == {} && !compensated && written.None? && deepUpdateSnapshots.Keys == Reusable(config)
      modifies this`attemptedDeepUpdates, this`rollbackCallFailed, this`compensated, this`cleanupFailed
      modifies this`ownedLedger, this`outputs, this`imports, this`written, remote`collections, remote`faults
      ensures remote.faults >= old(remote.faults)
      ensures failure.Some? && !Hindered(old(remote.collections)) ==> remote.faults > old(remote.faults)
      ensures failure == Some(CollectionRollbackFailed) && config.canDeepUpdate ==> remote.faults > old(remote.faults)
      ensures cleanupFailed ==> old(cleanupFailed) || remote.faults > old(remote.faults) || !config.canDeleteImports
      ensures failure.Some? && failure.value.OrchestrationFailed? ==>
                failure.value.stage == if written.None? then "cloud-collection-write" else "collection-final-verification"
      ensures Recoverable() && AllJournaled() && (compensated ==> CleanedUp())
      ensures failure.None? ==> AllDelivered(config, remote.digest, outputs, remote.collections) && rollbackCallFailed == old(rollbackCallFailed)
      ensures failure.None? ==> KeepsIds(config, outputs, imports) && !compensated
      ensures failure.Some? ==> StageError(failure.value, old(rollbackCallFailed), rollbackCallFailed)
    {
      hide Recoverable, AllDelivered, KeepsIds, CleanedUp, DistinctIds, DistinctKeys, Reusable, AllJournaled, Hindered;
      var stage := WriteAll();
      failure := None;
      if stage.Some? {
        var error := FailOwned(stage.value);
        failure := Some(error);
      }
    }

    method GenerateCollections() returns (failure: Option<Error>)
      requires Recoverable() && attemptedDeepUpdates == {} && DistinctIds(config.roles) && DistinctKeys(config.roles)
      requires imports == {} && !compensated && written.None?
      modifies this`deepUpdateSnapshots, this`attemptedDeepUpdates, this`rollbackCallFailed, this`compensated, this`cleanupFailed
      modifies this`ownedLedger, this`outputs, this`imports, this`written, remote`collections, remote`faults
      ensures remote.faults >= old(remote.faults)
      ensures failure.Some? && !Hindered(old(remote.collections)) ==> remote.faults > old(remote.faults)
      ensures failure == Some(CollectionRollbackFailed) && config.canDeepUpdate ==> remote.faults > old(remote.faults)
      ensures cleanupFailed ==> old(cleanupFailed) || remote.faults > old(remote.faults) || !config.canDeleteImports
      ensures Recoverable() && AllJournaled() && (compensated ==> CleanedUp())
      ensures failure.None? ==> AllDelivered(config, remote.digest, outputs, remote.collections) && rollbackCallFailed == old(rollbackCallFailed)
      ensures failure.None? ==> KeepsIds(config, outputs, imports) && !compensated
      ensures failure.Some? ==> StageError(failure.value, old(rollbackCallFailed), rollbackCallFailed)
    {
      failure := PrepareCollections();
      if failure.Some? {
        return;
      }
      failure := WriteAndVerify();
      if failure.Some? {
        return;
      }
      var fails := remote.StepFails();
      if fails {
        failure := Some(Failed("ledger"));
      }
    }

    // ---------- The run ----------

    /** Authored collections, linking, tagging and the artifact manifest: any of them may fail. */
    method FinishExternally() returns (failure: Option<Error>)
      requires Recoverable() && stagesDone == []
      modifies this`stagesDone, remote`collections, remote`faults
      ensures Recoverable()
      ensures remote.faults >= old(remote.faults) && (failure.Some? ==> remote.faults > old(remote.faults))
      ensures SameOn(remote.collections, old(remote.collections), outputs.Values)
      ensures failure.None? ==> stagesDone == STAGES
      ensures failure.Some? ==> stagesDone < STAGES && failure.value == Failed(STAGES[|stagesDone|])
    {
      failure := None;
      var reserved := Reusable(config) + outputs.Values;
      for i := 0 to |STAGES|
        invariant Recoverable() && stagesDone == STAGES[..i]
        invariant SameOn(remote.collections, old(remote.collections), outputs.Values)
        invariant remote.faults == old(remote.faults)
        modifies this`stagesDone, remote`collections, remote`faults
      {
        var ok := remote.ExternalStage(reserved);
        if !ok {
          return Some(Failed(STAGES[i]));
        }
        stagesDone := stagesDone + [STAGES[i]];
      }
    }

    /** The ids reach the tracked state here and nowhere else. */
    method Persist() returns (failure: Option<Error>)
      modifies this`tracked, this`stateWriteAttempted, this`createdNewSpec, remote`faults
      ensures failure.None? ==> !createdNewSpec
      ensures stateWriteAttempted
      ensures remote.faults >= old(remote.faults) && (failure.Some? ==> remote.faults > old(remote.faults))
      ensures tracked == old(tracked) || tracked == Recorded(config, old(tracked), specId, outputs)
      ensures failure.None? ==> tracked == Recorded(config, old(tracked), specId, outputs)
      ensures failure.Some? ==> failure.value.Failed? && createdNewSpec == old(createdNewSpec)
    {
      stateWriteAttempted := true;
      failure := None;
      var fails := remote.StepFails();
      var stored: bool := *;
      if stored || !fails {
        tracked := Recorded(config, tracked, specId, outputs);
      }
      if fails {
        return Some(Failed("persist"));
      }
      createdNewSpec := false;
    }

    /** What the specification side of an unfinished run looks like. */
    ghost predicate SpecSide(priorId: Option<string>, base: map<string, string>)
      reads this`specId, this`createdNewSpec, this`previousSpec, this`upload, remote`specs
    {
      match priorId
      case Some(id) =>
        && specId == priorId && !createdNewSpec && id in base
        && previousSpec == Some(RollbackContent(config, base[id]))
        && SameBut(remote.specs, base, {id}) && id in remote.specs
      case None =>
        match upload
        case NotSent => specId == None && !createdNewSpec && remote.specs == base
        case Sent(reply, after) =>
          && remote.specs == after && UploadFits(config, base, upload)
          && specId == (if Confirmed(config, reply) then Some(reply.id) else None)
          && createdNewSpec == (Confirmed(config, reply) && reply.created)
    }

    /** What the specification side of a finished stage looks like: stored as wanted, or found so. */
    ghost predicate SpecStored(priorId: Option<string>, base: map<string, string>)
      reads this`specId, this`upload, remote`specs
    {
      match priorId
      case Some(id) =>
        && specId == priorId && id in base
        && remote.specs == if FoundUnchanged(config, priorId, base) then base else base[id := config.upload]
      case None =>
        && upload.Sent? && remote.specs == upload.after && UploadFits(config, base, upload)
        && Confirmed(config, upload.reply) && specId == Some(upload.reply.id)
    }

    /**
     Whether the collections may stay as they are: never when the specification changed; with configured
     scripts or variables only where a refresh would not compare them, and no receipt tells otherwise.
     */
    method MaySkip() returns (skip: bool)
      modifies remote`faults
      ensures remote.faults >= old(remote.faults)
      ensures skip && config.rootContent && SomeRoleDiffers(config, remote.digest, remote.collections) ==> remote.faults > old(remote.faults)
      ensures skip ==> specUnchanged && !(config.rootContent && config.refresh)
      ensures specUnchanged && !config.rootContent ==> skip
      ensures !skip && specUnchanged && !config.refresh ==> SomeRoleDiffers(config, remote.digest, remote.collections)
    {
      if !specUnchanged || (config.rootContent && config.refresh) {
        return false;
      }
      skip := true;
      if !config.rootContent {
        return;
      }
      var underivable := remote.StepFails();
      if !underivable {
        for i := 0 to |config.roles|
          invariant !skip ==> SomeRoleDiffers(config, remote.digest, remote.collections)
          invariant remote.faults >= old(remote.faults)
          invariant skip && (exists j :: 0 <= j < i && Differs(config.roles[j], remote.digest, remote.collections)) ==>
                      remote.faults > old(remote.faults)
          modifies remote`faults
        {
          if config.roles[i].existingId.Some? {
            var observed := remote.ReadReceiptDigest(config.roles[i].existingId.value);
            if observed.Some? && observed.value != Desired(config, remote.digest, i) {
              assert Differs(config.roles[i], remote.digest, remote.collections);
              skip := false;
            }
          }
        }
      }
    }

    /** Either the collections stay as they are known, or they are generated and proved. */
    method MakeCollections() returns (failure: Option<Error>, generated: bool)
      requires Recoverable() && attemptedDeepUpdates == {} && DistinctIds(config.roles) && DistinctKeys(config.roles)
      requires imports == {} && !compensated && written.None?
      modifies this`deepUpdateSnapshots, this`attemptedDeepUpdates, this`rollbackCallFailed, this`compensated, this`cleanupFailed
      modifies this`ownedLedger, this`outputs, this`imports, this`written, remote`collections, remote`faults
      ensures remote.faults >= old(remote.faults)
      ensures failure.Some? && !Hindered(old(remote.collections)) ==> remote.faults > old(remote.faults)
      ensures failure == Some(CollectionRollbackFailed) && config.canDeepUpdate ==> remote.faults > old(remote.faults)
      ensures cleanupFailed ==> old(cleanupFailed) || remote.faults > old(remote.faults) || !config.canDeleteImports
      ensures Recoverable() && AllJournaled() && (compensated ==> CleanedUp())
      ensures failure.None? ==> rollbackCallFailed == old(rollbackCallFailed) && !compensated
      ensures failure.None? && generated ==> AllDelivered(config, remote.digest, outputs, remote.collections) && KeepsIds(config, outputs, imports)
      ensures failure.Some? ==> StageError(failure.value, old(rollbackCallFailed), rollbackCallFailed)
      ensures !generated ==> specUnchanged && outputs == KnownIds(config.roles) && attemptedDeepUpdates == {}
      ensures !generated && config.rootContent && SomeRoleDiffers(config, remote.digest, old(remote.collections)) ==>
                remote.faults > old(remote.faults)
      ensures GeneratedWhenDue(config, remote.digest, old(remote.collections), specUnchanged, generated)
    {
      var skip := MaySkip();
      generated := !skip;
      if skip {
        outputs := KnownIds(config.roles);
        failure := None;
      } else {
        failure := GenerateCollections();
      }
    }

    method Complete(generated: bool) returns (failure: Option<Error>)
      requires Recoverable() && stagesDone == [] && !stateWriteAttempted
      requires generated ==> AllDelivered(config, remote.digest, outputs, remote.collections)
      modifies this`tracked, this`stateWriteAttempted, this`createdNewSpec, this`stagesDone, remote`collections, remote`faults
      ensures remote.faults >= old(remote.faults)
      ensures failure.Some? && DistinctOutputs(outputs) ==> remote.faults > old(remote.faults)
      ensures Recoverable()
      ensures failure.Some? ==> failure.value.Failed? && createdNewSpec == old(createdNewSpec)
      ensures tracked == old(tracked) || (stateWriteAttempted && tracked == Recorded(config, old(tracked), specId, outputs))
      ensures stateWriteAttempted ==> stagesDone == STAGES
      ensures failure.None? ==> tracked == Recorded(config, old(tracked), specId, outputs) && DistinctOutputs(outputs) && stateWriteAttempted
      ensures failure.None? && generated ==> AllDelivered(config, remote.digest, outputs, remote.collections)
    {
      if !DistinctOutputs(outputs) {
        return Some(Failed("validate"));
      }
      ghost var before := remote.collections;
      failure := FinishExternally();
      if generated {
        DeliveredElsewhere(config, remote.digest, outputs, before, remote.collections);
      }
      if failure.None? {
        failure := Persist();
      }
    }

    /** Everything after the specification; the specification itself is left alone. */
    method MakeAndComplete() returns (failure: Option<Error>, generated: bool)
      requires Recoverable() && attemptedDeepUpdates == {} && DistinctIds(config.roles) && DistinctKeys(config.roles)
      requires !stateWriteAttempted && stagesDone == [] && imports == {} && !compensated && written.None?
      modifies this`deepUpdateSnapshots, this`attemptedDeepUpdates, this`rollbackCallFailed, this`compensated, this`cleanupFailed
      modifies this`ownedLedger, this`outputs, this`imports, this`written, remote`collections, remote`faults
      modifies this`tracked, this`stateWriteAttempted, this`createdNewSpec, this`stagesDone
      ensures remote.faults >= old(remote.faults)
      ensures failure.Some? && !Hindered(old(remote.collections)) && DistinctOutputs(outputs) ==> remote.faults > old(remote.faults)
      ensures failure == Some(CollectionRollbackFailed) && config.canDeepUpdate ==> remote.faults > old(remote.faults)
      ensures cleanupFailed ==> old(cleanupFailed) || remote.faults > old(remote.faults) || !config.canDeleteImports
      ensures Recoverable() && AllJournaled() && (compensated ==> CleanedUp())
      ensures failure.Some? ==> createdNewSpec == old(createdNewSpec)
      ensures failure.Some? ==> StageError(failure.value, old(rollbackCallFailed), rollbackCallFailed)
      ensures tracked == old(tracked) || (stateWriteAttempted && tracked == Recorded(config, old(tracked), specId, outputs))
      ensures stateWriteAttempted ==> stagesDone == STAGES
      ensures failure.None? ==> tracked == Recorded(config, old(tracked), specId, outputs) && rollbackCallFailed == old(rollbackCallFailed)
      ensures failure.None? ==> DistinctOutputs(outputs) && stateWriteAttempted
      ensures failure.None? && generated ==> AllDelivered(config, remote.digest, outputs, remote.collections) && KeepsIds(config, outputs, imports)
      ensures !generated ==> specUnchanged && outputs == KnownIds(config.roles) && attemptedDeepUpdates == {}
      ensures GeneratedWhenDue(config, remote.digest, old(remote.collections), specUnchanged, generated)
    {
      hide AllDelivered, KeepsIds, Recorded, DistinctOutputs, GeneratedWhenDue, DistinctIds, DistinctKeys, KnownIds, CleanedUp, Reusable, AllJournaled, Hindered, Recoverable;
      failure, generated := MakeCollections();
      if failure.None? {
        failure := Complete(generated);
      }
    }

    /** The specification stage in terms of what the run found. */
    method StoreSpec() returns (failure: Option<Error>)
      requires !createdNewSpec && !specUnchanged && upload == NotSent && SpecSide(specId, remote.specs)
      modifies this`specId, this`createdNewSpec, this`previousSpec, this`specUnchanged, this`upload, remote`specs, remote`faults
      ensures remote.faults >= old(remote.faults) && (failure.Some? ==> remote.faults > old(remote.faults))
      ensures failure != Some(CollectionRollbackFailed)
      ensures SpecSide(old(specId), old(remote.specs))
      ensures failure.None? ==>
                && SpecStored(old(specId), old(remote.specs))
                && (specUnchanged <==> FoundUnchanged(config, old(specId), old(remote.specs)))
      ensures failure.Some? ==> StageError(failure.value, rollbackCallFailed, rollbackCallFailed)
    {
      failure := SyncSpec();
    }

    method Attempt() returns (failure: Option<Error>, generated: bool)
      requires Recoverable() && attemptedDeepUpdates == {} && DistinctIds(config.roles) && DistinctKeys(config.roles)
      requires !createdNewSpec && !specUnchanged && upload == NotSent && SpecSide(specId, remote.specs)
      requires !stateWriteAttempted && stagesDone == [] && imports == {} && ownedLedger == [] && !compensated && written.None?
      modifies this, remote
      ensures remote.faults >= old(remote.faults)
      ensures failure.Some? && !Hindered(old(remote.collections)) && DistinctOutputs(outputs) ==> remote.faults > old(remote.faults)
      ensures failure == Some(CollectionRollbackFailed) && config.canDeepUpdate ==> remote.faults > old(remote.faults)
      ensures cleanupFailed ==> old(cleanupFailed) || remote.faults > old(remote.faults) || !config.canDeleteImports
      ensures Recoverable() && baseCollections == old(baseCollections) && AllJournaled() && (compensated ==> CleanedUp())
      ensures failure.Some? ==> SpecSide(old(specId), old(remote.specs))
      ensures failure.Some? ==> StageError(failure.value, old(rollbackCallFailed), rollbackCallFailed)
      ensures tracked == old(tracked) || (stateWriteAttempted && tracked == Recorded(config, old(tracked), specId, outputs))
      ensures stateWriteAttempted ==> stagesDone == STAGES
      ensures failure.None? ==> tracked == Recorded(config, old(tracked), specId, outputs) && rollbackCallFailed == old(rollbackCallFailed)
      ensures failure.None? ==> SpecStored(old(specId), old(remote.specs)) && DistinctOutputs(outputs) && stateWriteAttempted
      ensures failure.None? && generated ==> AllDelivered(config, remote.digest, outputs, remote.collections) && KeepsIds(config, outputs, imports)
      ensures failure.None? && !generated ==> outputs == KnownIds(config.roles) && attemptedDeepUpdates == {}
      ensures failure.None? ==>
                GeneratedWhenDue(config, remote.digest, old(remote.collections), FoundUnchanged(config, old(specId), old(remote.specs)), generated)
    {
      hide AllDelivered, KeepsIds, Recorded, DistinctOutputs, GeneratedWhenDue, DistinctIds, DistinctKeys, UploadFits, RollbackContent;
      hide FoundUnchanged, SpecStored, KnownIds, CleanedUp, Reusable, StageError, Hindered;
      generated := false;
      failure := StoreSpec();
      if failure.None? {
        failure, generated := MakeAndComplete();
      }
    }

    /** The outer handler: compensate, restore the collections, then the specification. */
    method Compensate(isSpecUpdate: bool, cause: Error) returns (thrown: Error)
      requires Recoverable() && (cause.RollbackFailed() <==> rollbackCallFailed) && (compensated ==> CleanedUp())
      modifies this`attemptedDeepUpdates, this`rollbackCallFailed, this`compensated, this`cleanupFailed, remote
      ensures Recoverable() && CleanedUp()
      ensures remote.faults >= old(remote.faults)
      ensures thrown != cause && config.canDeepUpdate
              && (isSpecUpdate && !createdNewSpec && specId.Some? ==> previousSpec.Some? && specId.value in old(remote.specs)) ==>
                remote.faults > old(remote.faults)
      ensures cleanupFailed ==> old(cleanupFailed) || remote.faults > old(remote.faults) || !config.canDeleteImports
      ensures thrown == cause || thrown.RollbackFailed()
      ensures thrown.RollbackFailed() <==> rollbackCallFailed
      ensures !thrown.RollbackFailed() ==>
                && attemptedDeepUpdates == {}
                && (specId.Some? && createdNewSpec && config.canDeleteSpec ==>
                      remote.specs == old(remote.specs) - {specId.value})
                && (specId.Some? && !createdNewSpec && isSpecUpdate ==>
                      previousSpec.Some? && remote.specs == old(remote.specs)[specId.value := previousSpec.value])
                && (specId.None? || (createdNewSpec && !config.canDeleteSpec) || (!createdNewSpec && !isSpecUpdate) ==>
                      remote.specs == old(remote.specs))
    {
      CompensateOwnedImports();
      var restored := RestoreAttemptedDeepUpdates();
      if !restored {
        return CollectionRollbackFailed;
      }
      var specRestored, tries := RestorePreviousSpec(isSpecUpdate);
      thrown := if specRestored then cause else SpecRollbackFailed;
    }

    /** What compensation leaves of the specifications, in terms of what the run found. */
    method Undo(ghost priorId: Option<string>, ghost base: map<string, string>, isSpecUpdate: bool, cause: Error) returns (thrown: Error)
      requires Recoverable() && (cause.RollbackFailed() <==> rollbackCallFailed) && (compensated ==> CleanedUp())
      requires SpecSide(priorId, base) && isSpecUpdate == priorId.Some? && AllJournaled()
      modifies this`attemptedDeepUpdates, this`rollbackCallFailed, this`compensated, this`cleanupFailed, remote
      ensures cleanupFailed || forall id :: id in imports ==> id !in remote.collections
      ensures remote.faults >= old(remote.faults)
      ensures thrown != cause && config.canDeepUpdate ==> remote.faults > old(remote.faults)
      ensures cleanupFailed ==> old(cleanupFailed) || remote.faults > old(remote.faults) || !config.canDeleteImports
      ensures thrown == cause || thrown.RollbackFailed()
      ensures thrown.RollbackFailed() <==> rollbackCallFailed
      ensures !thrown.RollbackFailed() ==>
                && SameOn(remote.collections, baseCollections, Reusable(config))
                && match priorId
                   case Some(id) => id in base && remote.specs == base[id := RollbackContent(config, base[id])]
                   case None => remote.specs == AfterFailure(config, base, upload) && UploadFits(config, base, upload)
    {
      hide AfterFailure, RollbackContent, UploadFits;
      NothingSent(config, base);
      if priorId.None? && upload.Sent? {
        UploadUndone(config, base, upload.reply, upload.after);
      }
      thrown := Compensate(isSpecUpdate, cause);
    }

    /** The specification is fetched, for a later restore and for checks that may refuse the run. */
    method Admit() returns (refused: bool)
      requires previousSpec == None && upload == NotSent && !createdNewSpec
      modifies this`previousSpec, remote`faults
      ensures remote.faults >= old(remote.faults)
      ensures refused ==>
                || remote.faults > old(remote.faults)
                || !DistinctIds(config.roles)
                || (specId.Some? && specId.value !in remote.specs)
      ensures !refused ==> DistinctIds(config.roles) && SpecSide(specId, remote.specs)
    {
      if specId.Some? {
        var stored := remote.GetSpec(specId.value);
        if stored.None? {
          return true;
        }
        previousSpec := Some(RollbackContent(config, stored.value));
      }
      refused := remote.StepFails();
      refused := refused || !DistinctIds(config.roles);
    }

    /**
     The whole transaction.  Whatever went wrong and whenever it did, an error without a rollback code
     leaves every reusable collection as the run found it, and a specification that existed before at
     its previous content; a specification the run uploaded is deleted when the answer confirmed it as
     new and it can be deleted, and otherwise stays as the upload left it.  Any error leaves no root that
     an import answered with, unless the clean-up failed.  A clean end has the specification stored, the
     collections delivered when they were due and left alone when not, every later stage done, and only
     then the ids recorded.
     */
    method Run() returns (thrown: Option<Error>, generated: bool)
      requires Fresh() && DistinctKeys(config.roles)
      modifies this, remote
      ensures thrown == Some(Preflight) ==>
                remote.collections == old(remote.collections) && remote.specs == old(remote.specs) && tracked == old(tracked)
      ensures !DistinctIds(config.roles) ==> thrown == Some(Preflight)
      ensures thrown.Some? && !thrown.value.RollbackFailed() ==>
                SameOn(remote.collections, old(remote.collections), Reusable(config))
      ensures thrown.Some? && !thrown.value.RollbackFailed() && thrown != Some(Preflight) && old(specId).Some? ==>
                && old(specId).value in old(remote.specs)
                && remote.specs == old(remote.specs)[old(specId).value := RollbackContent(config, old(remote.specs)[old(specId).value])]
      ensures thrown.Some? && !thrown.value.RollbackFailed() && old(specId).None? ==>
                remote.specs == AfterFailure(config, old(remote.specs), upload) && UploadFits(config, old(remote.specs), upload)
      ensures thrown.Some? ==> (thrown.value.RollbackFailed() <==> rollbackCallFailed)
      ensures thrown.Some? && remote.faults == old(remote.faults) ==>
                || !DistinctIds(config.roles)
                || (old(specId).Some? && old(specId).value !in old(remote.specs))
                || Hindered(old(remote.collections))
                || !DistinctOutputs(outputs)
      ensures thrown.Some? && thrown.value.RollbackFailed() && config.canDeepUpdate ==> remote.faults > old(remote.faults)
      ensures cleanupFailed ==> remote.faults > old(remote.faults) || !config.canDeleteImports
      ensures thrown.Some? ==> cleanupFailed || forall id :: id in imports ==> id !in remote.collections
      ensures tracked == old(tracked) || (stateWriteAttempted && tracked == Recorded(config, old(tracked), specId, outputs))
      ensures stateWriteAttempted ==> stagesDone == STAGES
      ensures !config.canonicalWriter ==> tracked == old(tracked)
      ensures thrown.None? ==> !rollbackCallFailed && stateWriteAttempted && tracked == Recorded(config, old(tracked), specId, outputs)
      ensures thrown.None? ==> SpecStored(old(specId), old(remote.specs)) && DistinctOutputs(outputs)
      ensures thrown.None? ==>
                GeneratedWhenDue(config, remote.digest, old(remote.collections), FoundUnchanged(config, old(specId), old(remote.specs)), generated)
      ensures thrown.None? && generated ==> AllDelivered(config, remote.digest, outputs, remote.collections) && KeepsIds(config, outputs, imports)
      ensures thrown.None? && !generated ==>
                outputs == KnownIds(config.roles) && SameOn(remote.collections, old(remote.collections), Reusable(config))
    {
      hide AllDelivered, KeepsIds, Recorded, DistinctIds, DistinctKeys, UploadFits, AfterFailure, RollbackContent;
      hide GeneratedWhenDue, FoundUnchanged, DistinctOutputs, KnownIds, SpecStored, CleanedUp, AllJournaled, Reusable, Hindered, SpecSide;
      NothingSent(config, remote.specs);
      generated := false;
      var refused := Admit();
      if refused {
        return Some(Preflight), generated;
      }
      var isSpecUpdate := specId.Some?;
      var failure;
      failure, generated := Attempt();
      OnlyCanonicalRecords(config, old(tracked), specId, outputs);
      if failure.None? {
        return None, generated;
      }
      var error := Undo(old(specId), old(remote.specs), isSpecUpdate, failure.value);
      thrown := Some(error);
    }
  }
}
