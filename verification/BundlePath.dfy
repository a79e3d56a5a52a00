/** Resolving a relative reference against a bundle key. */
module BundlePath {
  import opened Wrappers
  import opened Text

  datatype Error = EmptyReference | NotRelative | InvalidCharacter | Escapes

  // ---------- Segments ----------

  /** `path.split('/')`: at least one segment, none with a slash. */
  function Split(path: string): (r: seq<string>)
    ensures r != [] && forall i :: 0 <= i < |r| ==> '/' !in r[i]
  {
    if path == "" then [""]
    else
      var rest := Split(path[1..]);
      if path[0] == '/' then [""] + rest else [[path[0]] + rest[0]] + rest[1..]
  }

  function Join(parts: seq<string>): string {
    if parts == [] then "" else if |parts| == 1 then parts[0] else parts[0] + ['/'] + Join(parts[1..])
  }

  lemma {:induction false} SplitName(name: string, rest: string)
    requires '/' !in name
    ensures Split(name) == [name]
    ensures Split(name + ['/'] + rest) == [name] + Split(rest)
  {
    if name == "" {
      assert name + ['/'] + rest == ['/'] + rest;
      assert (['/'] + rest)[1..] == rest;
    } else {
      var text := name + ['/'] + rest;
      SplitName(name[1..], rest);
      assert text[1..] == name[1..] + ['/'] + rest;
      assert name == [name[0]] + name[1..];
    }
  }

  /** Splitting undoes joining. */
  lemma {:induction false} SplitJoin(parts: seq<string>)
    requires parts != [] && forall i :: 0 <= i < |parts| ==> '/' !in parts[i]
    ensures Split(Join(parts)) == parts
  {
    if |parts| == 1 {
      SplitName(parts[0], "");
      assert parts == [parts[0]];
    } else {
      SplitJoin(parts[1..]);
      SplitName(parts[0], Join(parts[1..]));
      assert parts == [parts[0]] + parts[1..];
    }
  }

  lemma SplitCons(c: char, text: string)
    ensures var rest := Split(text);
            Split([c] + text) == if c == '/' then [""] + rest else [[c] + rest[0]] + rest[1..]
  {
    assert ([c] + text)[1..] == text;
  }

  lemma HeadStays(c: char, x: seq<string>, y: seq<string>)
    requires x != []
    ensures [""] + x + y == [""] + (x + y)
    ensures [[c] + x[0]] + x[1..] + y == [[c] + (x + y)[0]] + (x + y)[1..]
  {
    assert (x + y)[1..] == x[1..] + y;
  }

  lemma {:induction false} SplitTwo(left: string, right: string)
    ensures Split(left + ['/'] + right) == Split(left) + Split(right)
  {
    if left == "" {
      SplitName("", right);
    } else {
      hide Split;
      var c, rest := left[0], left[1..];
      assert left == [c] + rest && left + ['/'] + right == [c] + (rest + ['/'] + right);
      SplitTwo(rest, right);
      SplitCons(c, rest);
      SplitCons(c, rest + ['/'] + right);
      HeadStays(c, Split(rest), Split(right));
    }
  }

  // ---------- Walking the tree ----------

  /** Walking from a directory, segment by segment; None when a step leaves the root. */
  function Walk(at: seq<string>, segments: seq<string>): Option<seq<string>>
    decreases |segments|
  {
    if segments == [] then Some(at)
    else if segments[0] == "" || segments[0] == "." then Walk(at, segments[1..])
    else if segments[0] == ".." then if at == [] then None else Walk(at[..|at| - 1], segments[1..])
    else Walk(at + [segments[0]], segments[1..])
  }

  /** How far a segment goes down. */
  function Fall(segment: string): int {
    if segment == "" || segment == "." then 0 else if segment == ".." then -1 else 1
  }

  function Depth(segments: seq<string>): int {
    if segments == [] then 0 else Depth(segments[..|segments| - 1]) + Fall(segments[|segments| - 1])
  }

  lemma {:induction false} DepthCons(segments: seq<string>)
    requires segments != []
    ensures Depth(segments) == Fall(segments[0]) + Depth(segments[1..])
  {
    if |segments| > 1 {
      var n := |segments| - 1;
      DepthCons(segments[..n]);
      assert segments[..n][1..] == segments[1..][..n - 1];
    }
  }

  /** A walk stays inside exactly when no prefix of it ends above the root, and then ends as deep as it has gone down. */
  lemma {:induction false} WalkStaysExactly(at: seq<string>, segments: seq<string>)
    ensures Walk(at, segments).Some? <==> forall k :: 0 <= k <= |segments| ==> |at| + Depth(segments[..k]) >= 0
    ensures Walk(at, segments).Some? ==> |Walk(at, segments).value| == |at| + Depth(segments)
    decreases |segments|
  {
    if segments != [] {
      var rest := segments[1..];
      var next := if Fall(segments[0]) == 0 then at else if Fall(segments[0]) == 1 then at + [segments[0]] else if at == [] then [] else at[..|at| - 1];
      DepthCons(segments);
      forall k | 1 <= k <= |segments| ensures Depth(segments[..k]) == Fall(segments[0]) + Depth(rest[..k - 1]) {
        DepthCons(segments[..k]);
        assert segments[..k][1..] == rest[..k - 1];
      }
      assert Depth(segments[..0]) == 0 && Depth(rest[..0]) == 0;
      WalkStaysExactly(next, rest);
      if Fall(segments[0]) == -1 && at == [] {
        assert |at| + Depth(segments[..1]) < 0;
      } else {
        assert |next| == |at| + Fall(segments[0]);
        if Walk(next, rest).Some? {
          forall k | 0 <= k <= |segments| ensures |at| + Depth(segments[..k]) >= 0 {
            if k > 0 {
              assert |next| + Depth(rest[..k - 1]) >= 0;
            }
          }
        } else {
          var k :| 0 <= k <= |rest| && |next| + Depth(rest[..k]) < 0;
          assert |at| + Depth(segments[..k + 1]) < 0;
        }
      }
    }
  }

  predicate IsName(segment: string) {
    segment != "" && segment != "." && segment != ".." && '/' !in segment
  }

  lemma {:induction false} WalkEndsOnNames(at: seq<string>, segments: seq<string>)
    requires forall i :: 0 <= i < |at| ==> IsName(at[i])
    requires forall i :: 0 <= i < |segments| ==> '/' !in segments[i]
    ensures Walk(at, segments).Some? ==> forall i :: 0 <= i < |Walk(at, segments).value| ==> IsName(Walk(at, segments).value[i])
    decreases |segments|
  {
    if segments != [] {
      var rest := segments[1..];
      if Fall(segments[0]) == 0 {
        WalkEndsOnNames(at, rest);
      } else if Fall(segments[0]) == 1 {
        WalkEndsOnNames(at + [segments[0]], rest);
      } else if at != [] {
        WalkEndsOnNames(at[..|at| - 1], rest);
      }
    }
  }

  lemma {:induction false} WalkTwo(at: seq<string>, first: seq<string>, second: seq<string>)
    ensures Walk(at, first + second) == match Walk(at, first) case None => None case Some(mid) => Walk(mid, second)
    decreases |first|
  {
    if first == [] {
      assert first + second == second;
    } else {
      assert (first + second)[1..] == first[1..] + second;
      if Fall(first[0]) == 0 {
        WalkTwo(at, first[1..], second);
      } else if Fall(first[0]) == 1 {
        WalkTwo(at + [first[0]], first[1..], second);
      } else if at != [] {
        WalkTwo(at[..|at| - 1], first[1..], second);
      }
    }
  }

  lemma {:induction false} WalkDown(at: seq<string>, names: seq<string>)
    requires forall i :: 0 <= i < |names| ==> IsName(names[i])
    ensures Walk(at, names) == Some(at + names)
    decreases |names|
  {
    if names == [] {
      assert at + names == at;
    } else {
      WalkDown(at + [names[0]], names[1..]);
      assert at + [names[0]] + names[1..] == at + names;
    }
  }

  function Ups(n: nat): (r: seq<string>)
    ensures |r| == n && forall i :: 0 <= i < n ==> r[i] == ".."
  {
    if n == 0 then [] else [".."] + Ups(n - 1)
  }

  lemma {:induction false} WalkUp(at: seq<string>, n: nat)
    requires n <= |at|
    ensures Walk(at, Ups(n)) == Some(at[..|at| - n])
    decreases n
  {
    if n == 0 {
      assert at[..|at|] == at;
    } else {
      assert Ups(n)[1..] == Ups(n - 1);
      WalkUp(at[..|at| - 1], n - 1);
      assert at[..|at| - 1][..|at| - n] == at[..|at| - n];
    }
  }

  // ---------- Resolution ----------

  predicate SchemeChar(c: char) {
    'a' <= c <= 'z' || 'A' <= c <= 'Z' || '0' <= c <= '9' || c == '+' || c == '.' || c == '-'
  }

  predicate SchemeEnds(text: string) {
    text != "" && (text[0] == ':' || (SchemeChar(text[0]) && SchemeEnds(text[1..])))
  }

  /** A letter, scheme characters and a colon; a drive letter is one. */
  predicate HasScheme(text: string) {
    text != "" && ('a' <= text[0] <= 'z' || 'A' <= text[0] <= 'Z') && SchemeEnds(text[1..])
  }

  /** The part of a location before its fragment. */
  function Target(location: string): string {
    var hash := IndexOf(location, "#", 0);
    if hash < 0 then location else location[..hash]
  }

  function Check(target: string): Option<Error> {
    if target == "" then Some(EmptyReference)
    else if HasScheme(target) || target[0] == '/' then Some(NotRelative)
    else if (0 as char) in target || '\\' in target then Some(InvalidCharacter)
    else None
  }

  /** What stands in front of a scheme's colon: letters, digits, plus signs, full stops and hyphens. */
  predicate InScheme(text: string, k: nat)
    requires k <= |text|
  {
    forall i :: 0 <= i < k ==> 48 <= text[i] as int <= 57 || 65 <= text[i] as int <= 90 || 97 <= text[i] as int <= 122 || text[i] in ['+', '.', '-']
  }

  /** A scheme ends at a colon with only such characters in front of it. */
  lemma {:induction false} SchemeEndsExactly(text: string)
    ensures SchemeEnds(text) <==> exists k :: 0 <= k < |text| && text[k] == ':' && InScheme(text, k)
  {
    if text != "" && text[0] != ':' {
      SchemeEndsExactly(text[1..]);
      if SchemeEnds(text) {
        var k :| 0 <= k < |text[1..]| && text[1..][k] == ':' && InScheme(text[1..], k);
        assert text[k + 1] == ':' && forall i :: 1 <= i < k + 1 ==> text[i] == text[1..][i - 1];
        assert InScheme(text, k + 1);
      }
      if k :| 0 <= k < |text| && text[k] == ':' && InScheme(text, k) {
        assert k > 0 && text[1..][k - 1] == ':' && InScheme(text[1..], k - 1);
      }
    } else if text != "" {
      assert InScheme(text, 0);
    }
  }

  /** What a reference may not be: empty, absolute, with a scheme, or with a NUL or a backslash. */
  lemma CheckExactly(target: string)
    ensures Check(target) == Some(EmptyReference) <==> target == ""
    ensures Check(target) == Some(NotRelative) <==>
              target != "" && (target[0] == '/' || (('a' <= target[0] <= 'z' || 'A' <= target[0] <= 'Z') && SchemeEnds(target[1..])))
    ensures Check(target).None? ==> target != "" && target[0] != '/' && 0 as char !in target && '\\' !in target
    ensures target != "" && Check(target) != Some(NotRelative) ==>
              (Check(target) == Some(InvalidCharacter) <==> 0 as char in target || '\\' in target)
    ensures Check(target).Some? ==> Check(target).value in [EmptyReference, NotRelative, InvalidCharacter]
  {
  }

  /** The target is the part of a location before its first fragment sign. */
  lemma TargetExactly(location: string)
    ensures Target(location) <= location && '#' !in Target(location)
    ensures |Target(location)| < |location| ==> location[|Target(location)|] == '#'
  {
    TargetHasNoHash(location);
    var hash := IndexOf(location, "#", 0);
    if hash >= 0 {
      CharAt(location, "#", hash, 0);
    }
  }

  function DirOf(key: string): string {
    var slash := LastIndexOf(key, "/");
    if slash < 0 then "" else key[..slash]
  }

  function NormalizePosix(path: string): string {
    match Walk([], Split(path))
    case None => ".."
    case Some(parts) => Join(parts)
  }

  function Resolve(fromKey: string, location: string): Result<string, Error> {
    var target := Target(location);
    if Check(target).Some? then Failure(Check(target).value)
    else
      var dir := DirOf(fromKey);
      var joined := NormalizePosix(if dir == "" then target else dir + ['/'] + target);
      if joined == "" || Misplaced(Split(joined)) then Failure(Escapes) else Success(joined)
  }

  predicate Misplaced(segments: seq<string>) {
    exists i :: 0 <= i < |segments| && (segments[i] == "" || segments[i] == "." || segments[i] == "..")
  }

  method NormalizePath(path: string) returns (r: string)
    ensures r == NormalizePosix(path)
  {
    var segments := Split(path);
    var parts: seq<string> := [];
    assert segments[0..] == segments;
    for i := 0 to |segments|
      invariant Walk([], segments) == Walk(parts, segments[i..])
    {
      assert segments[i..][0] == segments[i] && segments[i..][1..] == segments[i + 1..];
      if segments[i] == "" || segments[i] == "." {
      } else if segments[i] == ".." {
        if parts == [] {
          return "..";
        }
        parts := parts[..|parts| - 1];
      } else {
        parts := parts + [segments[i]];
      }
    }
    assert segments[|segments|..] == [];
    r := Join(parts);
  }

  /** The directory that a key's references start from. */
  function Base(fromKey: string): seq<string> {
    if DirOf(fromKey) == "" then [] else Split(DirOf(fromKey))
  }

  /**
   Resolution succeeds exactly when the target is permitted and the walk from the key's directory never
   leaves the root and ends on a named entry; the result is where it ends.
   */
  lemma ResolveIsAWalk(fromKey: string, location: string)
    ensures var target := Target(location);
            var end := Walk([], Base(fromKey) + Split(target));
            && (Resolve(fromKey, location).Success? <==> Check(target).None? && end.Some? && end.value != [])
            && (Resolve(fromKey, location).Success? ==>
                  Resolve(fromKey, location).value == Join(end.value) && forall i :: 0 <= i < |end.value| ==> IsName(end.value[i]))
  {
    var target := Target(location);
    var dir := DirOf(fromKey);
    var path := if dir == "" then target else dir + ['/'] + target;
    SplitTwo(dir, target);
    assert Split(path) == Base(fromKey) + Split(target) by {
      assert [] + Split(target) == Split(target);
    }
    var end := Walk([], Split(path));
    WalkEndsOnNames([], Split(path));
    if end.Some? && end.value != [] {
      SplitJoin(end.value);
      JoinIsNotEmpty(end.value);
    } else if end.None? {
      SplitName("..", "");
      assert Split("..")[0] == "..";
    }
  }

  /** The walk of section 5.2.4 of RFC 3986, which stays at the root instead of leaving it. */
  function ClampedWalk(at: seq<string>, segments: seq<string>): seq<string>
    decreases |segments|
  {
    if segments == [] then at
    else if segments[0] == "" || segments[0] == "." then ClampedWalk(at, segments[1..])
    else if segments[0] == ".." then ClampedWalk(if at == [] then [] else at[..|at| - 1], segments[1..])
    else ClampedWalk(at + [segments[0]], segments[1..])
  }

  /** Where no step leaves the root the two agree; only there does resolution answer at all. */
  lemma {:induction false} ClampingAgreesInside(at: seq<string>, segments: seq<string>)
    ensures Walk(at, segments).Some? ==> ClampedWalk(at, segments) == Walk(at, segments).value
    decreases |segments|
  {
    if segments != [] {
      if Fall(segments[0]) == 0 {
        ClampingAgreesInside(at, segments[1..]);
      } else if Fall(segments[0]) == 1 {
        ClampingAgreesInside(at + [segments[0]], segments[1..]);
      } else if at != [] {
        ClampingAgreesInside(at[..|at| - 1], segments[1..]);
      }
    }
  }

  // ---------- Relative paths ----------

  ghost predicate Canonical(parts: seq<string>) {
    parts != [] && forall i :: 0 <= i < |parts| ==> IsName(parts[i])
  }

  /** From the directory of `a` to `b`: up to a directory they share, then down. */
  function Relative(a: seq<string>, b: seq<string>, shared: nat): seq<string>
    requires shared < |a| && shared < |b| && a[..shared] == b[..shared]
  {
    Ups(|a| - 1 - shared) + b[shared..]
  }

  lemma {:induction false} JoinSnoc(parts: seq<string>, last: string)
    requires parts != []
    ensures Join(parts + [last]) == Join(parts) + ['/'] + last
  {
    if |parts| == 1 {
      assert (parts + [last])[1..] == [last];
    } else {
      JoinSnoc(parts[1..], last);
      assert (parts + [last])[1..] == parts[1..] + [last];
      assert Join(parts + [last]) == parts[0] + ['/'] + (Join(parts[1..]) + ['/'] + last);
    }
  }

  lemma NoSlashAfter(name: string, front: string)
    requires '/' !in name
    ensures LastIndexOf(name, "/") == -1
    ensures LastIndexOf(front + ['/'] + name, "/") == |front|
  {
    var text := front + ['/'] + name;
    assert text[|front|..|front| + 1] == "/";
    assert Occurs(text, "/", |front|);
    forall i | |front| < i ensures !Occurs(text, "/", i) {
      assert i < |text| ==> text[i] == name[i - |front| - 1];
      if Occurs(text, "/", i) {
        CharAt(text, "/", i, 0);
      }
    }
    forall i ensures !Occurs(name, "/", i) {
      if Occurs(name, "/", i) {
        CharAt(name, "/", i, 0);
      }
    }
  }

  /** A canonical key's directory is all but its last segment. */
  lemma BaseOfCanonical(a: seq<string>)
    requires Canonical(a)
    ensures Base(Join(a)) == a[..|a| - 1]
  {
    var n := |a| - 1;
    var dirs := a[..n];
    assert a == dirs + [a[n]];
    BaseOfKey(a[n], Join(dirs));
    if dirs == [] {
      assert Join(a) == a[0];
    } else {
      JoinSnoc(dirs, a[n]);
      SplitJoin(dirs);
      JoinIsNotEmpty(dirs);
    }
  }

  lemma BaseOfKey(name: string, front: string)
    requires '/' !in name
    ensures Base(name) == []
    ensures front != "" ==> Base(front + ['/'] + name) == Split(front)
  {
    NoSlashAfter(name, front);
    hide Split, LastIndexOf;
    assert (front + ['/'] + name)[..|front|] == front;
  }

  lemma JoinIsNotEmpty(parts: seq<string>)
    requires parts != [] && parts[0] != ""
    ensures Join(parts) != ""
  {
  }

  lemma {:induction false} JoinTwo(first: seq<string>, second: seq<string>)
    requires first != [] && second != []
    ensures Join(first + second) == Join(first) + ['/'] + Join(second)
  {
    if |first| == 1 {
      assert (first + second)[1..] == second;
    } else {
      JoinTwo(first[1..], second);
      assert (first + second)[1..] == first[1..] + second;
      assert Join(first + second) == first[0] + ['/'] + (Join(first[1..]) + ['/'] + Join(second));
    }
  }

  /** The dots that lead up, with their slashes. */
  function Upward(n: nat): string {
    if n == 0 then "" else Join(Ups(n)) + ['/']
  }

  lemma {:induction false} UpwardHasNoHash(n: nat)
    ensures '#' !in Upward(n)
  {
    if n > 1 {
      UpwardHasNoHash(n - 1);
      assert Ups(n)[1..] == Ups(n - 1);
      assert Upward(n) == ".." + ['/'] + Upward(n - 1);
    }
  }

  lemma UpwardSplits(n: nat, text: string)
    ensures Split(Upward(n) + text) == Ups(n) + Split(text)
  {
    if n == 0 {
      assert "" + text == text && Ups(0) + Split(text) == Split(text);
    } else {
      SplitTwo(Join(Ups(n)), text);
      SplitJoin(Ups(n));
    }
  }

  lemma TargetBehind(front: string, text: string)
    requires '#' !in front
    ensures Target(front + text) == front + Target(text)
  {
    forall i | 0 <= i < |front| ensures !Occurs(front + text, "#", i) {
      assert (front + text)[i] == front[i];
      if Occurs(front + text, "#", i) {
        CharAt(front + text, "#", i, 0);
      }
    }
    SkipFront(front, text, "#", 0);
    var hash := IndexOf(text, "#", 0);
    if hash >= 0 {
      assert (front + text)[..|front| + hash] == front + text[..hash];
    }
  }

  lemma TargetHasNoHash(text: string)
    ensures '#' !in Target(text) && Target(text) <= text
  {
    var target := Target(text);
    forall i | 0 <= i < |target| ensures target[i] != '#' {
      if target[i] == '#' {
        assert text[i..i + 1] == "#";
        assert Occurs(text, "#", i);
      }
    }
  }

  lemma {:induction false} SplitHasNoHash(text: string)
    requires '#' !in text
    ensures forall i :: 0 <= i < |Split(text)| ==> '#' !in Split(text)[i]
  {
    if text != "" {
      SplitHasNoHash(text[1..]);
    }
  }

  lemma {:induction false} JoinHasNoHash(parts: seq<string>)
    requires forall i :: 0 <= i < |parts| ==> '#' !in parts[i]
    ensures '#' !in Join(parts)
  {
    if |parts| > 1 {
      JoinHasNoHash(parts[1..]);
    }
  }

  /** Where a walk ends, each name was there before or is one of the segments. */
  lemma {:induction false} WalkElements(at: seq<string>, segments: seq<string>)
    ensures Walk(at, segments).Some? ==>
              forall i :: 0 <= i < |Walk(at, segments).value| ==>
                (i < |at| && Walk(at, segments).value[i] == at[i]) || Walk(at, segments).value[i] in segments
    decreases |segments|
  {
    if segments != [] {
      if Fall(segments[0]) == 0 {
        WalkElements(at, segments[1..]);
      } else if Fall(segments[0]) == 1 {
        WalkElements(at + [segments[0]], segments[1..]);
      } else if at != [] {
        WalkElements(at[..|at| - 1], segments[1..]);
      }
    }
  }

  lemma RelativeTarget(a: seq<string>, b: seq<string>, shared: nat)
    requires Canonical(a) && Canonical(b) && shared < |a| && shared < |b| && a[..shared] == b[..shared]
    ensures Split(Target(Join(Relative(a, b, shared)))) == Ups(|a| - 1 - shared) + Split(Target(Join(b[shared..])))
  {
    var n, rest := |a| - 1 - shared, b[shared..];
    if n > 0 {
      JoinTwo(Ups(n), rest);
    } else {
      assert Relative(a, b, shared) == rest && "" + Join(rest) == Join(rest);
    }
    UpwardHasNoHash(n);
    TargetBehind(Upward(n), Join(rest));
    UpwardSplits(n, Target(Join(rest)));
  }

  /** The walk along a relative path, fragment and all. */
  lemma RelativeWalk(a: seq<string>, b: seq<string>, shared: nat)
    requires Canonical(a) && Canonical(b) && shared < |a| && shared < |b| && a[..shared] == b[..shared]
    ensures Walk([], Base(Join(a)) + Split(Target(Join(Relative(a, b, shared))))) == Walk(b[..shared], Split(Target(Join(b[shared..]))))
  {
    hide Walk, Split, Target, Base, Ups, Relative, Join;
    var n, base := |a| - 1 - shared, a[..|a| - 1];
    BaseOfCanonical(a);
    RelativeTarget(a, b, shared);
    DownAndUp(base, n, Split(Target(Join(b[shared..]))));
    assert base[..|base| - n] == b[..shared];
  }

  lemma DownAndUp(base: seq<string>, n: nat, tail: seq<string>)
    requires n <= |base| && forall i :: 0 <= i < |base| ==> IsName(base[i])
    ensures Walk([], base + (Ups(n) + tail)) == Walk(base[..|base| - n], tail)
  {
    hide Walk, Ups;
    WalkTwo([], base, Ups(n) + tail);
    WalkDown([], base);
    assert [] + base == base;
    WalkTwo(base, Ups(n), tail);
    WalkUp(base, n);
  }

  /** For canonical keys, the relative path from `a` to `b` resolves to `b` exactly when its text is permitted and has no fragment. */
  lemma RelativePathResolvesExactly(a: seq<string>, b: seq<string>, shared: nat)
    requires Canonical(a) && Canonical(b) && shared < |a| && shared < |b| && a[..shared] == b[..shared]
    ensures var relative := Join(Relative(a, b, shared));
            Resolve(Join(a), relative) == Success(Join(b)) <==> '#' !in relative && Check(relative).None?
  {
    hide Walk, Split, Target, Check, Base, Resolve, Relative, Join;
    var relative := Join(Relative(a, b, shared));
    var end := Walk([], Base(Join(a)) + Split(Target(relative)));
    ResolveIsAWalk(Join(a), relative);
    RelativeWalk(a, b, shared);
    if '#' !in relative {
      NoFragment(relative);
      CleanWalk(a, b, shared);
    } else {
      HashWalk(a, b, shared);
      if Resolve(Join(a), relative) == Success(Join(b)) {
        JoinIsInjective(end.value, b);
      }
    }
  }

  lemma JoinIsInjective(p: seq<string>, q: seq<string>)
    requires p != [] && (forall i :: 0 <= i < |p| ==> IsName(p[i])) && Canonical(q) && Join(p) == Join(q)
    ensures p == q
  {
    SplitJoin(p);
    SplitJoin(q);
  }

  lemma CleanWalk(a: seq<string>, b: seq<string>, shared: nat)
    requires Canonical(a) && Canonical(b) && shared < |a| && shared < |b| && a[..shared] == b[..shared]
    requires '#' !in Join(Relative(a, b, shared))
    ensures Walk(b[..shared], Split(Target(Join(b[shared..])))) == Some(b)
  {
    var n, rest := |a| - 1 - shared, b[shared..];
    if n > 0 {
      JoinTwo(Ups(n), rest);
    } else {
      assert Relative(a, b, shared) == rest;
    }
    NoFragment(Join(rest));
    SplitJoin(rest);
    WalkDown(b[..shared], rest);
    assert b[..shared] + rest == b;
  }

  /** With a fragment sign in the path, the walk does not end on `b`. */
  lemma HashWalk(a: seq<string>, b: seq<string>, shared: nat)
    requires Canonical(a) && Canonical(b) && shared < |a| && shared < |b| && a[..shared] == b[..shared]
    requires '#' in Join(Relative(a, b, shared))
    ensures Walk(b[..shared], Split(Target(Join(b[shared..])))) != Some(b)
  {
    hide Walk, Split, Target, IndexOf;
    var n, rest := |a| - 1 - shared, b[shared..];
    var tail := Split(Target(Join(rest)));
    UpwardHasNoHash(n);
    if n > 0 {
      JoinTwo(Ups(n), rest);
      assert Join(Relative(a, b, shared)) == Upward(n) + Join(rest);
    } else {
      assert Relative(a, b, shared) == rest;
    }
    TargetHasNoHash(Join(rest));
    SplitHasNoHash(Target(Join(rest)));
    WalkElements(b[..shared], tail);
    if Walk(b[..shared], tail) == Some(b) {
      forall i | 0 <= i < |rest| ensures '#' !in rest[i] {
        assert rest[i] == b[shared + i] && b[shared + i] in tail;
      }
      JoinHasNoHash(rest);
    }
  }

  lemma NoFragment(text: string)
    requires '#' !in text
    ensures Target(text) == text
  {
    var at := IndexOf(text, "#", 0);
    if at >= 0 {
      CharAt(text, "#", at, 0);
    }
  }

  /** A name with a colon looks like a scheme, and then the path to it is refused. */
  lemma ColonNameIsRefused()
    ensures Canonical(["f"]) && Canonical(["c:x"]) && Resolve("f", "c:x") == Failure(NotRelative)
  {
    NoFragment("c:x");
    assert "c:x"[1..] == ":x";
    assert HasScheme("c:x");
  }
}
