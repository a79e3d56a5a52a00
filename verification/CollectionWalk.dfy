/** Collecting the files of a directory tree that symbolic links may turn into a graph with cycles. */
module CollectionWalk {
  import opened Wrappers
  import opened Ordering

  /** What a directory entry resolves to; a link may resolve to nothing. */
  datatype Kind = Directory | File | Special | Broken

  datatype Entry = Entry(name: string, target: string, kind: Kind)

  /** Real directories and their entries in name order, the workspace, and the supported extensions. */
  datatype FileSystem = FileSystem(dirs: map<string, seq<Entry>>, inside: string -> bool, supported: string -> bool)

  datatype Error = Escape | Unreadable

  ghost predicate WellFormed(fs: FileSystem) {
    forall d :: d in fs.dirs ==> forall e :: e in fs.dirs[d] && e.kind.Directory? ==> e.target in fs.dirs
  }

  predicate Bad(fs: FileSystem, e: Entry) {
    e.kind.Broken? || !fs.inside(e.target)
  }

  /** The supported files of a directory, in order. */
  function FilesOf(fs: FileSystem, entries: seq<Entry>): seq<string> {
    if entries == [] then []
    else
      var last := entries[|entries| - 1];
      var before := FilesOf(fs, entries[..|entries| - 1]);
      if last.kind.File? && fs.supported(last.name) then before + [last.target] else before
  }

  function FilesOfAll(fs: FileSystem, dirs: seq<string>): multiset<string>
    requires forall d :: d in dirs ==> d in fs.dirs
  {
    if dirs == [] then multiset{}
    else FilesOfAll(fs, dirs[..|dirs| - 1]) + multiset(FilesOf(fs, fs.dirs[dirs[|dirs| - 1]]))
  }

  // ---------- Reachability ----------

  ghost predicate Step(fs: FileSystem, a: string, b: string) {
    a in fs.dirs && exists e :: e in fs.dirs[a] && e.kind.Directory? && e.target == b
  }

  ghost predicate IsPath(fs: FileSystem, skipped: set<string>, p: seq<string>) {
    && p != []
    && (forall i :: 0 <= i < |p| ==> p[i] in fs.dirs && p[i] !in skipped)
    && (forall i :: 0 <= i < |p| - 1 ==> Step(fs, p[i], p[i + 1]))
  }

  /** `b` can be reached from `a` without entering a skipped directory. */
  ghost predicate Reach(fs: FileSystem, skipped: set<string>, a: string, b: string) {
    exists p :: IsPath(fs, skipped, p) && p[0] == a && p[|p| - 1] == b
  }

  lemma ReachSelf(fs: FileSystem, skipped: set<string>, a: string)
    requires a in fs.dirs && a !in skipped
    ensures Reach(fs, skipped, a, a)
  {
    assert IsPath(fs, skipped, [a]);
  }

  lemma ReachThrough(fs: FileSystem, skipped: set<string>, a: string, b: string, c: string)
    requires a in fs.dirs && a !in skipped && Step(fs, a, b) && Reach(fs, skipped, b, c)
    ensures Reach(fs, skipped, a, c)
  {
    var p :| IsPath(fs, skipped, p) && p[0] == b && p[|p| - 1] == c;
    var q := [a] + p;
    forall i | 0 <= i < |q| - 1 ensures Step(fs, q[i], q[i + 1]) {
      if i > 0 {
        assert q[i] == p[i - 1] && q[i + 1] == p[i];
      }
    }
    assert IsPath(fs, skipped, q);
    assert q[|q| - 1] == c;
  }

  /** Entries of the directories in `s` lead into `s` or are skipped. */
  ghost predicate Closed(fs: FileSystem, skipped: set<string>, s: set<string>, within: set<string>) {
    forall d, e :: d in s && d in fs.dirs && e in fs.dirs[d] && e.kind.Directory? ==> e.target in within || e.target in skipped
  }

  lemma {:induction false} ClosedHoldsPath(fs: FileSystem, skipped: set<string>, s: set<string>, p: seq<string>)
    requires Closed(fs, skipped, s, s) && IsPath(fs, skipped, p) && p[0] in s
    ensures p[|p| - 1] in s
  {
    if |p| > 1 {
      assert Step(fs, p[0], p[1]);
      var q := p[1..];
      forall i | 0 <= i < |q| - 1 ensures Step(fs, q[i], q[i + 1]) {
        assert q[i] == p[i + 1] && q[i + 1] == p[i + 2];
      }
      ClosedHoldsPath(fs, skipped, s, q);
    }
  }

  lemma ClosedHoldsReach(fs: FileSystem, skipped: set<string>, s: set<string>, a: string)
    requires Closed(fs, skipped, s, s) && a in s
    ensures forall b :: Reach(fs, skipped, a, b) ==> b in s
  {
    forall b | Reach(fs, skipped, a, b) ensures b in s {
      var p :| IsPath(fs, skipped, p) && p[0] == a && p[|p| - 1] == b;
      ClosedHoldsPath(fs, skipped, s, p);
    }
  }

  /** A root outside the workspace, or a reachable directory with an entry that leads to nothing or outside. */
  ghost predicate Trap(fs: FileSystem, skipped: set<string>, root: string, error: Error) {
    (error == Escape && !fs.inside(root))
    || exists d, e :: Reach(fs, skipped, root, d) && d in fs.dirs && e in fs.dirs[d] && Springs(fs, e, error)
  }

  predicate Springs(fs: FileSystem, e: Entry, error: Error) {
    if e.kind.Broken? then error == Unreadable else !fs.inside(e.target) && error == Escape
  }

  ghost predicate Trapped(fs: FileSystem, skipped: set<string>, root: string) {
    Trap(fs, skipped, root, Escape) || Trap(fs, skipped, root, Unreadable)
  }

  lemma TrapBelow(fs: FileSystem, skipped: set<string>, dir: string, entry: Entry, error: Error)
    requires dir in fs.dirs && dir !in skipped && entry in fs.dirs[dir] && entry.kind.Directory? && fs.inside(entry.target)
    requires Trap(fs, skipped, entry.target, error)
    ensures Trap(fs, skipped, dir, error)
  {
    var d, e :| Reach(fs, skipped, entry.target, d) && d in fs.dirs && e in fs.dirs[d] && Springs(fs, e, error);
    assert Step(fs, dir, entry.target);
    ReachThrough(fs, skipped, dir, entry.target, d);
  }

  // ---------- Bookkeeping ----------

  lemma {:induction false} FilesJoin(fs: FileSystem, a: seq<string>, b: seq<string>)
    requires forall d :: d in a || d in b ==> d in fs.dirs
    ensures FilesOfAll(fs, a + b) == FilesOfAll(fs, a) + FilesOfAll(fs, b)
  {
    hide FilesOf;
    if b == [] {
      assert a + b == a;
    } else {
      var n, whole := |b| - 1, a + b;
      FilesJoin(fs, a, b[..n]);
      assert whole[..|whole| - 1] == a + b[..n] && whole[|whole| - 1] == b[n];
    }
  }

  /** The files of the directories read from place `from` on, after more have been read. */
  lemma FilesExtend(fs: FileSystem, before: seq<string>, after: seq<string>, from: nat)
    requires from <= |before| && before <= after && forall d :: d in after ==> d in fs.dirs
    ensures forall d :: d in before ==> d in fs.dirs
    ensures FilesOfAll(fs, after[from..]) == FilesOfAll(fs, before[from..]) + FilesOfAll(fs, after[|before|..])
  {
    assert forall i :: 0 <= i < |before| ==> before[i] == after[i];
    assert after[from..] == before[from..] + after[|before|..];
    FilesJoin(fs, before[from..], after[|before|..]);
  }

  /** `found` is what was there, the files of the entries so far and those of the directories below them. */
  ghost predicate Counts(found: seq<string>, before: seq<string>, here: seq<string>, below: multiset<string>) {
    multiset(found) == multiset(before) + multiset(here) + below
  }

  lemma CountsStart(found: seq<string>)
    ensures Counts(found, found, [], multiset{})
  {
  }

  lemma CountsBelow(found: seq<string>, before: seq<string>, here: seq<string>, below: multiset<string>, more: seq<string>, added: multiset<string>)
    requires Counts(found, before, here, below) && multiset(more) == multiset(found) + added
    ensures Counts(more, before, here, below + added)
  {
  }

  lemma CountsHere(found: seq<string>, before: seq<string>, here: seq<string>, below: multiset<string>, file: string)
    requires Counts(found, before, here, below)
    ensures Counts(found + [file], before, here + [file], below)
  {
  }

  lemma FilesNone(fs: FileSystem, dirs: seq<string>)
    ensures dirs[|dirs|..] == [] && FilesOfAll(fs, []) == multiset{}
  {
  }

  lemma FilesOne(fs: FileSystem, dir: string)
    requires dir in fs.dirs
    ensures FilesOfAll(fs, [dir]) == multiset(FilesOf(fs, fs.dirs[dir]))
  {
    assert [dir][..0] == [];
  }

  /** Directories that the walk has finished since `old`: none skipped, all reachable, none with a bad entry. */
  ghost predicate Sound(fs: FileSystem, skipped: set<string>, dir: string, done: set<string>) {
    forall d :: d in done ==> d in fs.dirs && d !in skipped && Reach(fs, skipped, dir, d) && forall e :: e in fs.dirs[d] ==> !Bad(fs, e)
  }

  lemma SoundBelow(fs: FileSystem, skipped: set<string>, dir: string, entry: Entry, done: set<string>)
    requires dir in fs.dirs && dir !in skipped && entry in fs.dirs[dir] && entry.kind.Directory?
    requires Sound(fs, skipped, entry.target, done)
    ensures Sound(fs, skipped, dir, done)
  {
    assert Step(fs, dir, entry.target);
    forall d | d in done ensures Reach(fs, skipped, dir, d) {
      ReachThrough(fs, skipped, dir, entry.target, d);
    }
  }

  /** What the walk knew before an entry and what the entry added. */
  lemma WalksJoin(fs: FileSystem, skipped: set<string>, dir: string, was: set<string>, seen: set<string>, now: set<string>)
    requires was <= seen <= now
    requires Closed(fs, skipped, seen - was, seen) && Closed(fs, skipped, now - seen, now)
    requires Sound(fs, skipped, dir, seen - was) && Sound(fs, skipped, dir, now - seen)
    ensures Closed(fs, skipped, now - was, now) && Sound(fs, skipped, dir, now - was)
  {
    assert now - was == (seen - was) + (now - seen);
  }

  /** Entries that are in order, their directories visited or skipped. */
  ghost predicate Seen(fs: FileSystem, skipped: set<string>, entries: seq<Entry>, visited: set<string>) {
    forall e :: e in entries ==> !Bad(fs, e) && (e.kind.Directory? ==> e.target in visited || e.target in skipped)
  }

  lemma SeenOneMore(fs: FileSystem, skipped: set<string>, entries: seq<Entry>, i: nat, before: set<string>, now: set<string>)
    requires i < |entries| && Seen(fs, skipped, entries[..i], before) && before <= now && !Bad(fs, entries[i])
    requires entries[i].kind.Directory? ==> entries[i].target in now || entries[i].target in skipped
    ensures Seen(fs, skipped, entries[..i + 1], now)
  {
    assert entries[..i + 1] == entries[..i] + [entries[i]];
  }

  lemma FilesOfNothing(fs: FileSystem)
    ensures FilesOf(fs, []) == [] && forall skipped, visited :: Seen(fs, skipped, [], visited)
  {
  }

  lemma FilesStep(fs: FileSystem, entries: seq<Entry>, i: nat)
    requires i < |entries|
    ensures FilesOf(fs, entries[..i + 1])
            == if entries[i].kind.File? && fs.supported(entries[i].name) then FilesOf(fs, entries[..i]) + [entries[i].target]
               else FilesOf(fs, entries[..i])
  {
    assert entries[..i + 1][..i] == entries[..i];
  }

  lemma WalkStarts(fs: FileSystem, skipped: set<string>, dir: string, was: set<string>)
    ensures Closed(fs, skipped, was - was, was) && Sound(fs, skipped, dir, was - was)
  {
  }

  lemma TrapHere(fs: FileSystem, skipped: set<string>, dir: string, entry: Entry, error: Error)
    requires dir in fs.dirs && dir !in skipped && entry in fs.dirs[dir] && Springs(fs, entry, error)
    ensures Trap(fs, skipped, dir, error)
  {
    ReachSelf(fs, skipped, dir);
  }

  // ---------- The walk ----------

  class Walker {
    const fs: FileSystem
    const skipped: set<string>
    var files: seq<string>
    var visited: set<string>
    /** The directories that were read, in order. */
    ghost var expanded: seq<string>

    ghost predicate Valid()
      reads this
    {
      && WellFormed(fs)
      && Distinct(expanded)
      && (forall d :: d in expanded <==> d in visited)
      && (forall d :: d in visited ==> d in fs.dirs)
    }

    constructor (fs: FileSystem, skipped: set<string>)
      requires WellFormed(fs)
      ensures Valid() && files == [] && visited == {} && expanded == [] && this.fs == fs && this.skipped == skipped
    {
      this.fs, this.skipped := fs, skipped;
      files, visited := [], {};
      expanded := [];
    }

    method Collect(dir: string) returns (error: Option<Error>)
      requires Valid() && dir in fs.dirs
      modifies this
      ensures Valid()
      ensures old(visited) <= visited && old(expanded) <= expanded && old(files) <= files
      ensures error.Some? ==> Trap(fs, skipped, dir, error.value)
      ensures error.None? ==>
                && fs.inside(dir)
                && (dir in skipped || dir in visited)
                && Closed(fs, skipped, visited - old(visited), visited)
                && Sound(fs, skipped, dir, visited - old(visited))
                && multiset(files) == multiset(old(files)) + FilesOfAll(fs, expanded[|old(expanded)|..])
      decreases fs.dirs.Keys - visited, 0
    {
      hide Reach, IsPath, Step, FilesOf, FilesOfAll;
      if !fs.inside(dir) {
        return Some(Escape);
      }
      if dir in skipped || dir in visited {
        FilesNone(fs, expanded);
        return None;
      }
      ghost var was, before := visited, expanded;
      DistinctSnoc(expanded, dir);
      visited := visited + {dir};
      expanded := expanded + [dir];
      error := ReadEntries(dir);
      if error.None? {
        ReachSelf(fs, skipped, dir);
        FilesOne(fs, dir);
        FilesExtend(fs, before + [dir], expanded, |before|);
        assert (before + [dir])[|before|..] == [dir];
        assert visited - was == (visited - (was + {dir})) + {dir};
      }
    }

    /** The loop over the entries of a directory that has been marked as visited. */
    method ReadEntries(dir: string) returns (error: Option<Error>)
      requires Valid() && dir in visited && dir !in skipped
      modifies this
      ensures Valid()
      ensures old(visited) <= visited && old(expanded) <= expanded && old(files) <= files
      ensures error.Some? ==> Trap(fs, skipped, dir, error.value)
      ensures error.None? ==>
                && Seen(fs, skipped, fs.dirs[dir], visited)
                && Closed(fs, skipped, visited - old(visited), visited)
                && Sound(fs, skipped, dir, visited - old(visited))
                && Counts(files, old(files), FilesOf(fs, fs.dirs[dir]), FilesOfAll(fs, expanded[|old(expanded)|..]))
      decreases fs.dirs.Keys - visited, 1
    {
      hide Reach, IsPath, Step, FilesOf, FilesOfAll, Closed, Sound, Counts, Trap, Seen;
      FilesOfNothing(fs);
      ghost var was, files0, n := visited, files, |expanded|;
      FilesNone(fs, expanded);
      CountsStart(files);
      WalkStarts(fs, skipped, dir, was);
      var entries := fs.dirs[dir];
      for i := 0 to |entries|
        invariant Valid()
        invariant was <= visited && old(expanded) <= expanded && files0 <= files
        invariant Seen(fs, skipped, entries[..i], visited)
        invariant Closed(fs, skipped, visited - was, visited)
        invariant Sound(fs, skipped, dir, visited - was)
        invariant Counts(files, files0, FilesOf(fs, entries[..i]), FilesOfAll(fs, expanded[n..]))
      {
        var entry := entries[i];
        FilesStep(fs, entries, i);
        if Bad(fs, entry) {
          error := Some(if entry.kind.Broken? then Unreadable else Escape);
          TrapHere(fs, skipped, dir, entry, error.value);
          return;
        }
        ghost var seen := visited;
        if entry.kind.Directory? {
          ghost var before, found := expanded, files;
          error := Collect(entry.target);
          if error.Some? {
            TrapBelow(fs, skipped, dir, entry, error.value);
            return;
          }
          SoundBelow(fs, skipped, dir, entry, visited - seen);
          FilesExtend(fs, before, expanded, n);
          CountsBelow(found, files0, FilesOf(fs, entries[..i]), FilesOfAll(fs, before[n..]), files, FilesOfAll(fs, expanded[|before|..]));
          WalksJoin(fs, skipped, dir, was, seen, visited);
        } else if entry.kind.File? && fs.supported(entry.name) {
          CountsHere(files, files0, FilesOf(fs, entries[..i]), FilesOfAll(fs, expanded[n..]), entry.target);
          files := files + [entry.target];
        }
        SeenOneMore(fs, skipped, entries, i, seen, visited);
      }
      assert entries[..|entries|] == entries;
      error := None;
    }
  }

  // ---------- The whole walk ----------

  lemma {:induction false} FilesAre(fs: FileSystem, dirs: seq<string>)
    requires forall d :: d in dirs ==> d in fs.dirs
    ensures forall f :: f in FilesOfAll(fs, dirs) <==> exists d :: d in dirs && f in FilesOf(fs, fs.dirs[d])
  {
    if dirs != [] {
      var n := |dirs| - 1;
      FilesAre(fs, dirs[..n]);
      assert dirs == dirs[..n] + [dirs[n]];
      assert forall d :: d in dirs <==> d in dirs[..n] || d == dirs[n];
    }
  }

  lemma {:induction false} FilesAreEntries(fs: FileSystem, entries: seq<Entry>)
    ensures forall f :: f in FilesOf(fs, entries) ==> exists e :: e in entries && e.kind.File? && fs.supported(e.name) && e.target == f
  {
    if entries != [] {
      FilesAreEntries(fs, entries[..|entries| - 1]);
      assert entries == entries[..|entries| - 1] + [entries[|entries| - 1]];
    }
  }

  lemma NothingReached(fs: FileSystem, skipped: set<string>, root: string)
    requires root in skipped
    ensures forall d :: !Reach(fs, skipped, root, d)
  {
  }

  /**
   The walk succeeds exactly when no reachable directory has an entry that is broken or leads out of the
   workspace.  Then it has read every reachable directory once, and its files are theirs, all inside.
   */
  method CollectSupportedCollectionPaths(fs: FileSystem, skipped: set<string>, root: string)
    returns (r: Result<seq<string>, Error>, ghost read: seq<string>)
    requires WellFormed(fs) && root in fs.dirs
    ensures r.Success? <==> !Trapped(fs, skipped, root)
    ensures r.Failure? ==> Trap(fs, skipped, root, r.error)
    ensures Distinct(read) && forall d :: d in read ==> d in fs.dirs
    ensures r.Success? ==>
              && (forall d :: d in read <==> Reach(fs, skipped, root, d))
              && multiset(r.value) == FilesOfAll(fs, read)
              && (forall f :: f in r.value <==> exists d :: d in read && f in FilesOf(fs, fs.dirs[d]))
              && (forall f :: f in r.value ==> fs.inside(f))
  {
    var walker := new Walker(fs, skipped);
    var error := walker.Collect(root);
    read := walker.expanded;
    if error.Some? {
      return Failure(error.value), read;
    }
    assert walker.expanded[0..] == walker.expanded && walker.visited - {} == walker.visited;
    r := Success(walker.files);
    WalkIsComplete(fs, skipped, root, walker.visited);
    FilesAre(fs, read);
    forall f | f in walker.files ensures fs.inside(f) && exists d :: d in read && f in FilesOf(fs, fs.dirs[d]) {
      assert f in multiset(walker.files);
      var d :| d in read && f in FilesOf(fs, fs.dirs[d]);
      FilesAreEntries(fs, fs.dirs[d]);
      var e :| e in fs.dirs[d] && e.kind.File? && fs.supported(e.name) && e.target == f;
      assert !Bad(fs, e);
    }
    forall f | exists d :: d in read && f in FilesOf(fs, fs.dirs[d]) ensures f in walker.files {
      assert f in multiset(walker.files);
    }
  }

  lemma WalkIsComplete(fs: FileSystem, skipped: set<string>, root: string, visited: set<string>)
    requires (root in skipped || root in visited) && Closed(fs, skipped, visited, visited) && Sound(fs, skipped, root, visited)
    ensures forall d :: d in visited <==> Reach(fs, skipped, root, d)
    ensures fs.inside(root) ==> !Trapped(fs, skipped, root)
  {
    if root in skipped {
      NothingReached(fs, skipped, root);
      assert forall d :: d in visited ==> Reach(fs, skipped, root, d);
    } else {
      ClosedHoldsReach(fs, skipped, visited, root);
    }
  }
}
