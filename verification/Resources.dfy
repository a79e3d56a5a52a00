/** The tracked state file, and syncing additional collections so that a stopped run can be repeated. */
module Resources {
  import opened Wrappers
  import opened Ordering

  type Ids = map<string, string>

  datatype Tables = Tables(collections: Option<Ids>, additional: Option<Ids>)

  /** `rest` stands for the members that no operation here looks at. */
  datatype State = State(version: Option<int>, canonical: Option<Tables>, cloud: Option<Tables>, rest: string)

  datatype File = NoFile | Unparseable | NotAMapping | Empty | Mapping(state: State)

  datatype Error = Unreadable

  const CURRENT_VERSION := 2

  predicate Supported(version: Option<int>) {
    version.None? || version.value == 1 || version.value == CURRENT_VERSION
  }

  function Read(file: File): Result<Option<State>, Error> {
    match file
    case NoFile => Success(None)
    case Unparseable => Failure(Unreadable)
    case NotAMapping => Failure(Unreadable)
    case Empty => Success(None)
    case Mapping(s) =>
      if !Supported(s.version) then Failure(Unreadable)
      else Success(Some(if s.canonical.Some? && s.cloud.None? then s.(cloud := s.canonical) else s))
  }

  function Write(s: State): State {
    var canonical := if s.cloud.Some? then s.cloud.value else if s.canonical.Some? then s.canonical.value else Tables(None, None);
    s.(version := Some(CURRENT_VERSION), canonical := Some(canonical), cloud := None)
  }

  function At(ids: Option<Ids>, path: string): Option<string> {
    if ids.Some? && path in ids.value then Some(ids.value[path]) else None
  }

  function Or(first: Option<string>, second: Option<string>): Option<string> {
    if first.Some? then first else second
  }

  function InTables(tables: Option<Tables>, path: string): Option<string> {
    match tables
    case None => None
    case Some(t) => Or(At(t.additional, path), At(t.collections, path))
  }

  function Lookup(state: Option<State>, path: string): Option<string> {
    match state
    case None => None
    case Some(s) => Or(InTables(s.canonical, path), InTables(s.cloud, path))
  }

  function LookupFile(file: File, path: string): Option<string> {
    match Read(file)
    case Failure(_) => None
    case Success(state) => Lookup(state, path)
  }

  /**
   What was written reads back with the current version, without transient tables on disk, and with the
   same id for a path exactly when the two shapes in memory did not disagree about it.
   */
  lemma WriteThenRead(s: State, path: string)
    ensures Write(s).cloud.None? && Write(s).rest == s.rest
    ensures Read(Mapping(Write(s))).Success? && Read(Mapping(Write(s))).value.Some?
    ensures var back := Read(Mapping(Write(s))).value;
            && back.value.version == Some(CURRENT_VERSION)
            && Write(back.value) == Write(s)
            && (Lookup(back, path) == Lookup(Some(s), path)
                <==> s.cloud.None? || InTables(s.canonical, path).None? || InTables(s.canonical, path) == InTables(s.cloud, path))
  {
  }

  /** A file with both shapes that disagree: one write, and the id that was found is lost. */
  lemma MixedShapesLoseAnId()
    ensures var s := State(Some(1), Some(Tables(None, Some(map["p" := "a"]))), Some(Tables(None, None)), "");
            Lookup(Some(s), "p") == Some("a") && LookupFile(Mapping(Write(s)), "p") == None
  {
  }

  // ---------- Syncing ----------

  datatype Root = Root(path: string, id: string)

  /** How often a path was announced a root, and how often its root was reported missing. */
  function Count(paths: seq<string>, path: string): nat {
    multiset(paths)[path]
  }

  function Announce(s: State, path: string, id: string): State {
    var cloud := if s.cloud.Some? then s.cloud.value else Tables(None, None);
    var additional := if cloud.additional.Some? then cloud.additional.value else map[];
    s.(cloud := Some(cloud.(additional := Some(additional[path := id]))))
  }

  lemma AnnounceIsFound(s: State, path: string, id: string, other: string)
    ensures InTables(Announce(s, path, id).cloud, path) == Some(id)
    ensures other != path ==> InTables(Announce(s, path, id).cloud, other) == InTables(s.cloud, other)
    ensures LookupFile(Mapping(Write(Announce(s, path, id))), other) == InTables(Announce(s, path, id).cloud, other)
  {
  }

  /** Recording an id changes the one entry and nothing else of the state. */
  lemma AnnounceExactly(s: State, path: string, id: string)
    ensures var a := Announce(s, path, id);
            && a.version == s.version && a.canonical == s.canonical && a.rest == s.rest && a.cloud.Some?
            && a.cloud.value.collections == (if s.cloud.Some? then s.cloud.value.collections else None)
            && a.cloud.value.additional.Some?
            && a.cloud.value.additional.value - {path}
               == (if s.cloud.Some? && s.cloud.value.additional.Some? then s.cloud.value.additional.value - {path} else map[])
  {
  }

  lemma WrittenIsFound(s: State, path: string)
    ensures InTables(s.cloud, path).Some? ==> LookupFile(Mapping(Write(s)), path) == InTables(s.cloud, path)
  {
  }

  lemma CountSnoc(paths: seq<string>, path: string)
    ensures forall p :: Count(paths + [path], p) == Count(paths, p) + (if p == path then 1 else 0)
    ensures path !in paths ==> Count(paths, path) == 0
  {
  }

  /** What a run has done to `done`: at most one new root each, and only for a path without one or after a report that it is missing. */
  ghost predicate Progress(done: seq<string>, found: File, before: seq<string>, now: seq<string>, missingBefore: seq<string>, missingNow: seq<string>) {
    && (forall p :: p !in done ==> Count(now, p) == Count(before, p) && Count(missingNow, p) == Count(missingBefore, p))
    && (forall p :: Count(now, p) <= Count(before, p) + 1)
    && (forall p :: Count(now, p) > Count(before, p) ==> LookupFile(found, p).None? || Count(missingNow, p) > Count(missingBefore, p))
  }

  lemma ProgressStarts(found: File, before: seq<string>, missingBefore: seq<string>)
    ensures Progress([], found, before, before, missingBefore, missingBefore)
  {
  }

  lemma ProgressWider(done: seq<string>, all: seq<string>, found: File, before: seq<string>, now: seq<string>, missingBefore: seq<string>, missingNow: seq<string>)
    requires Progress(done, found, before, now, missingBefore, missingNow) && forall p :: p in done ==> p in all
    ensures Progress(all, found, before, now, missingBefore, missingNow)
  {
  }

  lemma ProgressStep(done: seq<string>, path: string, found: File, before: seq<string>, mid: seq<string>, now: seq<string>,
                     missingBefore: seq<string>, missingMid: seq<string>, missingNow: seq<string>)
    requires Progress(done, found, before, mid, missingBefore, missingMid) && path !in done
    requires forall p :: p != path ==> Count(now, p) == Count(mid, p) && Count(missingNow, p) == Count(missingMid, p)
    requires Count(now, path) <= Count(mid, path) + 1
    requires Count(now, path) > Count(mid, path) ==> LookupFile(found, path).None? || Count(missingNow, path) > Count(missingMid, path)
    ensures Progress(done + [path], found, before, now, missingBefore, missingNow)
  {
    hide Count, LookupFile;
    forall p ensures p !in done + [path] <==> p !in done && p != path {
    }
  }

  /** Each of these paths has a root in memory, and one that was found on disk has been updated. */
  ghost predicate Synced(done: seq<string>, found: File, state: State, updates: set<Root>) {
    forall p :: p in done ==>
      && InTables(state.cloud, p).Some?
      && (LookupFile(found, p).Some? ==> Root(p, LookupFile(found, p).value) in updates)
  }

  lemma SyncedStep(done: seq<string>, path: string, found: File, was: State, updated: set<Root>, state: State, updates: set<Root>)
    requires Synced(done, found, was, updated) && updated <= updates && path !in done
    requires forall p :: p != path ==> InTables(state.cloud, p) == InTables(was.cloud, p)
    requires InTables(state.cloud, path).Some? && (LookupFile(found, path).Some? ==> Root(path, LookupFile(found, path).value) in updates)
    ensures Synced(done + [path], found, state, updates)
  {
    hide InTables, LookupFile;
  }

  lemma SyncedIsStored(done: seq<string>, found: File, state: State, updates: set<Root>)
    requires Synced(done, found, state, updates)
    ensures forall p :: p in done ==>
              && LookupFile(Mapping(Write(state)), p).Some?
              && (LookupFile(found, p).Some? ==> Root(p, LookupFile(found, p).value) in updates)
  {
    hide InTables, LookupFile, Write;
    forall p | p in done ensures LookupFile(Mapping(Write(state)), p).Some? {
      WrittenIsFound(state, p);
    }
  }

  /** The disk, and what has happened in all runs so far. */
  class Host {
    var disk: File
    /** Paths whose root the server has announced, and the last id of each. */
    ghost var announced: seq<string>
    ghost var lastId: map<string, string>
    /** Paths whose root the server has reported missing. */
    ghost var missing: seq<string>
    /** The roots that the server has been asked to update. */
    ghost var updates: set<Root>
    /** How often a run was stopped, or a call failed. */
    ghost var stops: nat

    /**
     Every announced root can be found again on disk, and a path has been announced at most one root more
     than the server has reported missing.
     */
    ghost predicate Valid()
      reads this`disk, this`announced, this`lastId, this`missing
    {
      && (forall p :: p in announced <==> p in lastId)
      && (forall p :: p in announced ==> LookupFile(disk, p) == Some(lastId[p]))
      && (announced != [] ==> disk.Mapping? && disk.state.cloud.None? && disk.state.canonical.Some? && Supported(disk.state.version))
      && (forall p :: Count(announced, p) <= 1 + Count(missing, p))
    }

    constructor (disk: File)
      ensures Valid() && this.disk == disk && announced == [] && missing == []
    {
      this.disk := disk;
      announced, lastId, missing, updates, stops := [], map[], [], {}, 0;
    }

    /** The state in memory knows every announced root, but perhaps that of one path. */
    ghost predicate Knows(state: State, but: Option<string>)
      reads this`announced, this`lastId, this`missing
    {
      && Supported(state.version)
      && (forall p :: p in announced <==> p in lastId)
      && (forall p :: p in lastId && but != Some(p) ==> InTables(state.cloud, p) == Some(lastId[p]))
      && (forall p :: Count(announced, p) <= 1 + Count(missing, p))
    }

    /** The id of a root is recorded and the state is written. */
    method Persist(state: State, path: string, id: string) returns (next: State)
      requires Knows(state, Some(path)) && (path in lastId ==> lastId[path] == id)
      modifies this`disk
      ensures Valid() && Knows(next, None) && next.cloud.Some? && disk == Mapping(Write(next))
      ensures next == Announce(state, path, id)
    {
      next := Announce(state, path, id);
      disk := Mapping(Write(next));
      forall p
        ensures InTables(next.cloud, p) == if p == path then Some(id) else InTables(state.cloud, p)
        ensures LookupFile(disk, p) == InTables(next.cloud, p)
      {
        AnnounceIsFound(state, path, id, p);
      }
    }

    /** A create may stop or fail before the server has made the root, or after it has been announced. */
    method CreateAdditionalCollection(state: State, path: string) returns (completed: bool, next: State)
      requires Valid() && Knows(state, None) && Count(announced, path) <= Count(missing, path)
      modifies this
      ensures Valid() && Knows(next, None) && missing == old(missing) && updates == old(updates)
      ensures forall p :: p != path ==> (p in lastId <==> p in old(lastId)) && (p in lastId ==> lastId[p] == old(lastId)[p])
      ensures if announced == old(announced) then next == state && disk == old(disk) && !completed
              else announced == old(announced) + [path] && next.cloud.Some? && disk == Mapping(Write(next))
      ensures stops >= old(stops) && (completed <==> stops == old(stops))
      ensures forall p :: p != path ==> InTables(next.cloud, p) == InTables(state.cloud, p)
    {
      hide Count, InTables, Write, Lookup, LookupFile, Announce, Supported;
      if * {
        stops := stops + 1;
        return false, state;
      }
      var id: string := *;
      announced := announced + [path];
      lastId := lastId[path := id];
      CountSnoc(old(announced), path);
      next := Persist(state, path, id);
      forall p ensures p != path ==> InTables(next.cloud, p) == InTables(state.cloud, p) {
        AnnounceIsFound(state, path, id, p);
      }
      if * {
        stops := stops + 1;
        return false, next;
      }
      next := Persist(next, path, id);
      forall p ensures p != path ==> InTables(next.cloud, p) == InTables(state.cloud, p) {
        AnnounceIsFound(state, path, id, p);
        AnnounceIsFound(Announce(state, path, id), path, id, p);
      }
      completed := true;
    }

    /** The state that a run starts from; a missing file is an empty state. */
    method Load() returns (loaded: Result<Option<State>, Error>, state: State)
      requires Valid()
      ensures loaded == Read(disk)
      ensures loaded.Success? ==> state == if loaded.value.Some? then loaded.value.value else State(None, None, None, "")
      ensures loaded.Success? ==> Knows(state, None) && forall p :: LookupFile(disk, p) == Lookup(loaded.value, p)
    {
      loaded := Read(disk);
      state := if loaded.Success? && loaded.value.Some? then loaded.value.value else State(None, None, None, "");
    }

    /** One file: an update of the root found for it, or a create. */
    method SyncFile(state: State, existing: Option<string>, path: string) returns (completed: bool, next: State)
      requires Valid() && Knows(state, None)
      requires path in lastId ==> existing == Some(lastId[path])
      modifies this
      ensures Valid() && Knows(next, None)
      ensures old(announced) <= announced && old(missing) <= missing && old(updates) <= updates
      ensures forall p :: p != path ==>
                && InTables(next.cloud, p) == InTables(state.cloud, p)
                && (p in lastId <==> p in old(lastId)) && (p in lastId ==> lastId[p] == old(lastId)[p])
                && Count(announced, p) == Count(old(announced), p) && Count(missing, p) == Count(old(missing), p)
      ensures Count(announced, path) <= Count(old(announced), path) + 1
      ensures Count(announced, path) > Count(old(announced), path) ==> existing.None? || Count(missing, path) > Count(old(missing), path)
      ensures completed ==> InTables(next.cloud, path).Some? && disk == Mapping(Write(next))
      ensures stops >= old(stops) && (completed <==> stops == old(stops))
      ensures (completed || Count(announced, path) > Count(old(announced), path)) && existing.Some? ==> Root(path, existing.value) in updates
    {
      CountSnoc(announced, path);
      CountSnoc(missing, path);
      hide Count, InTables, Write, Lookup, LookupFile, Announce;
      if existing.Some? {
        if * {
          stops := stops + 1;
          return false, state;
        }
        updates := updates + {Root(path, existing.value)};
        if * {
          missing := missing + [path];
        } else {
          next := Persist(state, path, existing.value);
          forall p ensures InTables(next.cloud, p) == if p == path then existing else InTables(state.cloud, p) {
            AnnounceIsFound(state, path, existing.value, p);
          }
          return true, next;
        }
      }
      completed, next := CreateAdditionalCollection(state, path);
    }

    /**
     One run over the collection files, which may stop anywhere.  A path whose root is on disk is updated;
     a new root is announced for it only after the server has reported the old one missing.
     */
    method SyncAdditionalCollections(files: seq<string>) returns (completed: bool)
      requires Valid() && Distinct(files)
      modifies this
      ensures Valid()
      ensures old(announced) <= announced && old(missing) <= missing && old(updates) <= updates
      ensures Progress(files, old(disk), old(announced), announced, old(missing), missing)
      ensures completed <==> stops == old(stops) && Read(old(disk)).Success?
      ensures completed ==> forall p :: p in files ==>
                && LookupFile(disk, p).Some?
                && (LookupFile(old(disk), p).Some? ==> Root(p, LookupFile(old(disk), p).value) in updates)
    {
      completed := false;
      var loaded, state := Load();
      if loaded.Failure? {
        ProgressStarts(disk, announced, missing);
        ProgressWider([], files, disk, announced, announced, missing, missing);
        return;
      }
      ghost var found := disk;
      ProgressStarts(found, announced, missing);
      hide *;
      for i := 0 to |files|
        invariant Valid() && Knows(state, None)
        invariant old(announced) <= announced && old(missing) <= missing && old(updates) <= updates
        invariant forall p :: p !in files[..i] && p in lastId ==> LookupFile(found, p) == Some(lastId[p])
        invariant stops == old(stops)
        invariant Progress(files[..i], found, old(announced), announced, old(missing), missing)
        invariant i > 0 ==> disk == Mapping(Write(state))
        invariant Synced(files[..i], found, state, updates)
      {
        ghost var mid, missingMid, was, updated := announced, missing, state, updates;
        assert files[..i + 1] == files[..i] + [files[i]];
        assert files[i] !in files[..i];
        completed, state := SyncFile(state, Lookup(loaded.value, files[i]), files[i]);
        ProgressStep(files[..i], files[i], found, old(announced), mid, announced, old(missing), missingMid, missing);
        if !completed {
          ProgressWider(files[..i + 1], files, found, old(announced), announced, old(missing), missing);
          return;
        }
        SyncedStep(files[..i], files[i], found, was, updated, state, updates);
      }
      assert files[..|files|] == files;
      SyncedIsStored(files, found, state, updates);
      completed := true;
    }
  }

  // ---------- What is read ----------

  /** A missing or empty file is a first run; anything but a mapping of version 1 or 2, or of none, is refused. */
  lemma ReadExactly(file: File)
    ensures Read(file).Failure? <==>
              file.Unparseable? || file.NotAMapping? || (file.Mapping? && file.state.version.Some? && file.state.version.value != 1 && file.state.version.value != 2)
    ensures Read(file) == Success(None) <==> file.NoFile? || file.Empty?
    ensures Read(file).Success? && Read(file).value.Some? ==>
              var s := Read(file).value.value;
              && file.Mapping? && s.(cloud := file.state.cloud) == file.state
              && s.cloud == if file.state.cloud.Some? then file.state.cloud else file.state.canonical
  {
  }

  ghost predicate Holds(ids: Option<Ids>, path: string, id: string) {
    ids.Some? && path in ids.value && ids.value[path] == id
  }

  /** The four tables in which an id is looked up, in order. */
  function TablesOf(s: State): seq<Option<Ids>> {
    (if s.canonical.Some? then [s.canonical.value.additional, s.canonical.value.collections] else [])
    + (if s.cloud.Some? then [s.cloud.value.additional, s.cloud.value.collections] else [])
  }

  /** The id found is that of the first table with the path. */
  lemma LookupExactly(s: State, path: string)
    ensures Lookup(Some(s), path).None? <==> forall t :: t in TablesOf(s) && t.Some? ==> path !in t.value
    ensures Lookup(Some(s), path).Some? ==>
              exists k :: 0 <= k < |TablesOf(s)| && Holds(TablesOf(s)[k], path, Lookup(Some(s), path).value)
                && forall j :: 0 <= j < k && TablesOf(s)[j].Some? ==> path !in TablesOf(s)[j].value
  {
    var tables := TablesOf(s);
    if Lookup(Some(s), path).None? {
      forall t | t in tables && t.Some? ensures path !in t.value {
      }
    } else if InTables(s.canonical, path).Some? {
      var k := if At(s.canonical.value.additional, path).Some? then 0 else 1;
      assert Holds(tables[k], path, Lookup(Some(s), path).value);
    } else {
      var first := if s.canonical.Some? then 2 else 0;
      var k := if At(s.cloud.value.additional, path).Some? then first else first + 1;
      assert Holds(tables[k], path, Lookup(Some(s), path).value);
    }
  }

  /** What is written: version 2, and the transient tables in place of the canonical ones when there are any. */
  lemma WriteExactly(s: State)
    ensures var w := Write(s);
            && w.version == Some(2) && w.cloud == None && w.rest == s.rest
            && w.canonical == if s.cloud.Some? then s.cloud else if s.canonical.Some? then s.canonical else Some(Tables(None, None))
  {
  }
}
