/**
 Replaying a local tree as one create per node, when an answer may be lost after the server has
 committed.  A lost create is settled by listing the items and adopting the one that matches.
 */
module Materialise {
  import opened Sequences
  import opened Wrappers

  datatype Kind = Folder | WsRawRequest | WsSocketIoRequest | Other(name: string)

  /** An entry of a tree; entries that are not records are skipped. */
  datatype Node = Node(kind: Kind, title: string, body: string, children: seq<Node>) | NotARecord

  /** The server gives every item its own id; the model names an item by its place in order of creation. */
  datatype Parent = Collection | Under(id: nat)

  datatype Item = Item(kind: Kind, title: string, parent: Parent, body: string)

  datatype Error = TreeInvalid | NoId | Refused | ListFailed | Unresolved | AmbiguousMatch

  /**
   What happens to one create: it is answered, it is answered without an id, it is refused, or its
   answer is lost, committed or not, and then the listing answers or fails.
   */
  datatype Answer = Accepted | AcceptedWithoutId | RefusedOutright | Lost(committed: bool, listed: bool)

  type Script = nat -> Answer

  // ---------- One create ----------

  predicate Matches(item: Item, want: Item) {
    item.kind == want.kind && item.title == want.title && item.parent == want.parent
  }

  /** The items that a lost create of `want` could have made. */
  function Found(log: seq<Item>, want: Item): (r: seq<nat>)
    ensures forall i :: i in r <==> 0 <= i < |log| && Matches(log[i], want)
  {
    if log == [] then []
    else
      var n := |log| - 1;
      var earlier := Found(log[..n], want);
      if Matches(log[n], want) then earlier + [n] else earlier
  }

  function AdoptExactMatch(found: seq<nat>): Result<nat, Error> {
    if |found| == 0 then Failure(Unresolved) else if |found| == 1 then Success(found[0]) else Failure(AmbiguousMatch)
  }

  function Create(log: seq<Item>, want: Item, answer: Answer): (Result<nat, Error>, seq<Item>) {
    match answer
    case Accepted => (Success(|log|), log + [want])
    case AcceptedWithoutId => (Failure(NoId), log + [want])
    case RefusedOutright => (Failure(Refused), log)
    case Lost(committed, listed) =>
      var log' := if committed then log + [want] else log;
      (if listed then AdoptExactMatch(Found(log', want)) else Failure(ListFailed), log')
  }

  predicate MakesOne(log: seq<Item>, want: Item, answer: Answer) {
    var (r, log') := Create(log, want, answer);
    r.Success? ==> r.value == |log| && log' == log + [want]
  }

  /** Every create that returns has made its own item, exactly when it is not the case that one earlier item matches. */
  lemma CreateIsExact(log: seq<Item>, want: Item)
    ensures (forall answer :: MakesOne(log, want, answer)) <==> |Found(log, want)| != 1
  {
    FoundSnoc(log, want);
    hide Found;
    if |Found(log, want)| == 1 {
      assert Found(log, want)[0] in Found(log, want);
      assert !MakesOne(log, want, Lost(false, true));
    }
  }

  lemma FoundSnoc(log: seq<Item>, want: Item)
    ensures Found(log + [want], want) == Found(log, want) + [|log|]
  {
    assert (log + [want])[..|log|] == log;
  }

  // ---------- The whole tree ----------

  predicate OwnsMessages(kind: Kind) {
    kind.WsRawRequest? || kind.WsSocketIoRequest?
  }

  /** Messages are created without their own children. */
  function Flat(nodes: seq<Node>): (r: seq<Node>)
    ensures |r| == |nodes|
  {
    if nodes == [] then []
    else [if nodes[0].NotARecord? then NotARecord else nodes[0].(children := [])] + Flat(nodes[1..])
  }

  /** What is created beneath a node. */
  function Below(node: Node): seq<Node>
    requires node.Node?
  {
    if node.kind.Folder? then node.children else if OwnsMessages(node.kind) then Flat(node.children) else []
  }

  function Size(nodes: seq<Node>): nat {
    if nodes == [] then 0
    else (if nodes[0].NotARecord? then 1 else 1 + Size(nodes[0].children)) + Size(nodes[1..])
  }

  lemma {:induction false} FlatIsSmaller(nodes: seq<Node>)
    ensures Size(Flat(nodes)) <= Size(nodes)
  {
    if nodes != [] {
      FlatIsSmaller(nodes[1..]);
      var flat := Flat(nodes);
      assert flat[1..] == Flat(nodes[1..]);
    }
  }

  lemma SizeDecreases(nodes: seq<Node>)
    requires nodes != []
    ensures Size(nodes[1..]) < Size(nodes)
    ensures nodes[0].Node? ==> Size(Below(nodes[0])) < Size(nodes)
  {
    if nodes[0].Node? {
      FlatIsSmaller(nodes[0].children);
    }
  }

  predicate Misplaced(node: Node)
    requires node.Node?
  {
    !node.kind.Folder? && !OwnsMessages(node.kind) && |node.children| > 0
  }

  function Wanted(node: Node, parent: Parent): Item
    requires node.Node?
  {
    Item(node.kind, node.title, parent, node.body)
  }

  datatype Outcome = Outcome(log: seq<Item>, at: nat, result: Result<nat, Error>)

  function Plus(leaves: nat, o: Outcome): Outcome {
    if o.result.Success? then o.(result := Success(leaves + o.result.value)) else o
  }

  /** Replaying `nodes` beneath `parent`, with the answers of `script` from position `at` on. */
  function Run(nodes: seq<Node>, parent: Parent, log: seq<Item>, script: Script, at: nat): Outcome
    decreases Size(nodes)
  {
    if nodes == [] then Outcome(log, at, Success(0))
    else
      SizeDecreases(nodes);
      if nodes[0].NotARecord? then Run(nodes[1..], parent, log, script, at)
      else if Misplaced(nodes[0]) then Outcome(log, at, Failure(TreeInvalid))
      else
        var (created, log') := Create(log, Wanted(nodes[0], parent), script(at));
        if created.Failure? then Outcome(log', at + 1, Failure(created.error))
        else
          var below := Run(Below(nodes[0]), Under(created.value), log', script, at + 1);
          if below.result.Failure? then below
          else
            Plus(if nodes[0].kind.Folder? then below.result.value else 1, Run(nodes[1..], parent, below.log, script, below.at))
  }

  // ---------- What should come out ----------

  /** The items of a tree in the order they are made, the first at place `at`. */
  function Placed(nodes: seq<Node>, parent: Parent, at: nat): seq<Item>
    decreases Size(nodes)
  {
    if nodes == [] then []
    else
      SizeDecreases(nodes);
      if nodes[0].NotARecord? then Placed(nodes[1..], parent, at)
      else
        var below := Placed(Below(nodes[0]), Under(at), at + 1);
        [Wanted(nodes[0], parent)] + below + Placed(nodes[1..], parent, at + 1 + |below|)
  }

  /** Request leaves: everything but folders, and a request owning messages counts once. */
  function Leaves(nodes: seq<Node>): nat
    decreases Size(nodes)
  {
    if nodes == [] then 0
    else
      SizeDecreases(nodes);
      if nodes[0].NotARecord? then Leaves(nodes[1..])
      else (if nodes[0].kind.Folder? then Leaves(Below(nodes[0])) else 1) + Leaves(nodes[1..])
  }

  /** No children where none may be. */
  predicate WellPlaced(nodes: seq<Node>)
    decreases Size(nodes)
  {
    nodes == []
    || (SizeDecreases(nodes);
        (nodes[0].Node? ==> !Misplaced(nodes[0]) && WellPlaced(Below(nodes[0]))) && WellPlaced(nodes[1..]))
  }

  /** Siblings differ in type or title at every level; `seen` are those of earlier siblings. */
  predicate SiblingsDiffer(nodes: seq<Node>, seen: set<(Kind, string)>)
    decreases Size(nodes)
  {
    nodes == []
    || (SizeDecreases(nodes);
        if nodes[0].NotARecord? then SiblingsDiffer(nodes[1..], seen)
        else
          && (nodes[0].kind, nodes[0].title) !in seen
          && SiblingsDiffer(Below(nodes[0]), {})
          && SiblingsDiffer(nodes[1..], seen + {(nodes[0].kind, nodes[0].title)}))
  }

  /** The children of `parent` in the log are as `seen` says. */
  ghost predicate Siblings(log: seq<Item>, parent: Parent, seen: set<(Kind, string)>) {
    && (forall i :: 0 <= i < |log| && log[i].parent == parent ==> (log[i].kind, log[i].title) in seen)
    && (parent.Under? ==> parent.id < |log|)
  }

  /** Parents come before their children. */
  ghost predicate Ordered(log: seq<Item>) {
    forall i :: 0 <= i < |log| && log[i].parent.Under? ==> log[i].parent.id < i
  }

  lemma PlacedCons(nodes: seq<Node>, parent: Parent, at: nat)
    requires nodes != [] && nodes[0].Node?
    ensures var below := Placed(Below(nodes[0]), Under(at), at + 1);
            Placed(nodes, parent, at) == [Wanted(nodes[0], parent)] + below + Placed(nodes[1..], parent, at + 1 + |below|)
  {
  }

  ghost predicate ParentsWithin(items: seq<Item>, parent: Parent, at: nat) {
    forall i :: 0 <= i < |items| ==> items[i].parent == parent || (items[i].parent.Under? && at <= items[i].parent.id < at + i)
  }

  lemma ParentsJoin(item: Item, below: seq<Item>, after: seq<Item>, parent: Parent, at: nat)
    requires item.parent == parent && ParentsWithin(below, Under(at), at + 1) && ParentsWithin(after, parent, at + 1 + |below|)
    ensures ParentsWithin([item] + below + after, parent, at)
  {
    var items := [item] + below + after;
    forall i | 0 <= i < |items|
      ensures items[i].parent == parent || (items[i].parent.Under? && at <= items[i].parent.id < at + i)
    {
      if 1 <= i < 1 + |below| {
        assert items[i] == below[i - 1];
      } else if 1 + |below| <= i {
        assert items[i] == after[i - 1 - |below|];
      }
    }
  }

  lemma {:induction false} PlacedParents(nodes: seq<Node>, parent: Parent, at: nat)
    ensures ParentsWithin(Placed(nodes, parent, at), parent, at)
    decreases Size(nodes)
  {
    if nodes != [] {
      SizeDecreases(nodes);
      if nodes[0].NotARecord? {
        PlacedParents(nodes[1..], parent, at);
        assert Placed(nodes, parent, at) == Placed(nodes[1..], parent, at);
      } else {
        var below := Placed(Below(nodes[0]), Under(at), at + 1);
        PlacedParents(Below(nodes[0]), Under(at), at + 1);
        PlacedParents(nodes[1..], parent, at + 1 + |below|);
        PlacedCons(nodes, parent, at);
        ParentsJoin(Wanted(nodes[0], parent), below, Placed(nodes[1..], parent, at + 1 + |below|), parent, at);
      }
    }
  }

  lemma {:induction false} PlacedCount(nodes: seq<Node>, p: Parent, q: Parent, i: nat, j: nat)
    ensures |Placed(nodes, p, i)| == |Placed(nodes, q, j)|
    decreases Size(nodes)
  {
    if nodes != [] {
      SizeDecreases(nodes);
      if nodes[0].NotARecord? {
        PlacedCount(nodes[1..], p, q, i, j);
      } else {
        var below, below' := Placed(Below(nodes[0]), Under(i), i + 1), Placed(Below(nodes[0]), Under(j), j + 1);
        PlacedCount(Below(nodes[0]), Under(i), Under(j), i + 1, j + 1);
        PlacedCount(nodes[1..], p, q, i + 1 + |below|, j + 1 + |below'|);
      }
    }
  }

  // ---------- Exactness ----------

  lemma CreateFresh(log: seq<Item>, want: Item, answer: Answer, seen: set<(Kind, string)>)
    requires Siblings(log, want.parent, seen) && (want.kind, want.title) !in seen
    ensures MakesOne(log, want, answer)
    ensures Create(log, want, answer).1 == log || Create(log, want, answer).1 == log + [want]
  {
    forall i | 0 <= i < |log| ensures !Matches(log[i], want) {
    }
    if |Found(log, want)| == 1 {
      assert Found(log, want)[0] in Found(log, want);
      assert false;
    }
    CreateIsExact(log, want);
  }

  lemma AfterNode(log: seq<Item>, node: Node, parent: Parent, seen: set<(Kind, string)>)
    requires node.Node? && Ordered(log) && Siblings(log, parent, seen)
    ensures var made := log + [Wanted(node, parent)];
            && Ordered(made)
            && Siblings(made, Under(|log|), {})
            && (forall below :: below == Placed(Below(node), Under(|log|), |log| + 1) ==>
                  Ordered(made + below) && Siblings(made + below, parent, seen + {(node.kind, node.title)}))
  {
    PlacedParents(Below(node), Under(|log|), |log| + 1);
  }

  lemma Extends<T>(part: seq<T>, whole: seq<T>, more: seq<T>)
    requires part <= whole
    ensures part <= whole + more
  {
  }

  lemma PlacedAfter(nodes: seq<Node>, parent: Parent, log: seq<Item>)
    requires nodes != [] && nodes[0].Node?
    ensures var filled := log + [Wanted(nodes[0], parent)] + Placed(Below(nodes[0]), Under(|log|), |log| + 1);
            log + Placed(nodes, parent, |log|) == filled + Placed(nodes[1..], parent, |filled|)
  {
    hide *;
    var below := Placed(Below(nodes[0]), Under(|log|), |log| + 1);
    PlacedCons(nodes, parent, |log|);
    Regroup(log, [Wanted(nodes[0], parent)], below, Placed(nodes[1..], parent, |log| + 1 + |below|));
  }

  ghost predicate Exact(o: Outcome, log: seq<Item>, placed: seq<Item>, leaves: nat, wellPlaced: bool) {
    && log <= o.log <= log + placed
    && (o.result.Success? ==> o.log == log + placed && o.result.value == leaves && wellPlaced)
  }

  lemma RunNode(nodes: seq<Node>, parent: Parent, log: seq<Item>, script: Script, at: nat)
    requires nodes != [] && nodes[0].Node? && !Misplaced(nodes[0])
    ensures var (created, log') := Create(log, Wanted(nodes[0], parent), script(at));
            Run(nodes, parent, log, script, at) ==
              if created.Failure? then Outcome(log', at + 1, Failure(created.error))
              else
                var below := Run(Below(nodes[0]), Under(created.value), log', script, at + 1);
                if below.result.Failure? then below
                else
                  Plus(if nodes[0].kind.Folder? then below.result.value else 1, Run(nodes[1..], parent, below.log, script, below.at))
  {
  }

  lemma LeavesCons(nodes: seq<Node>)
    requires nodes != [] && nodes[0].Node?
    ensures Leaves(nodes) == (if nodes[0].kind.Folder? then Leaves(Below(nodes[0])) else 1) + Leaves(nodes[1..])
    ensures WellPlaced(nodes) <==> !Misplaced(nodes[0]) && WellPlaced(Below(nodes[0])) && WellPlaced(nodes[1..])
  {
  }

  lemma NodeIsExact(nodes: seq<Node>, parent: Parent, log: seq<Item>, script: Script, at: nat)
    requires nodes != [] && nodes[0].Node? && !Misplaced(nodes[0])
    requires MakesOne(log, Wanted(nodes[0], parent), script(at))
    requires Create(log, Wanted(nodes[0], parent), script(at)).1 in [log, log + [Wanted(nodes[0], parent)]]
    requires var made := log + [Wanted(nodes[0], parent)];
             var filled := made + Placed(Below(nodes[0]), Under(|log|), |log| + 1);
             var b := Run(Below(nodes[0]), Under(|log|), made, script, at + 1);
             && Exact(b, made, Placed(Below(nodes[0]), Under(|log|), |log| + 1), Leaves(Below(nodes[0])), WellPlaced(Below(nodes[0])))
             && Exact(Run(nodes[1..], parent, filled, script, b.at), filled, Placed(nodes[1..], parent, |filled|),
                      Leaves(nodes[1..]), WellPlaced(nodes[1..]))
    ensures Exact(Run(nodes, parent, log, script, at), log, Placed(nodes, parent, |log|), Leaves(nodes), WellPlaced(nodes))
  {
    var made := log + [Wanted(nodes[0], parent)];
    var filled := made + Placed(Below(nodes[0]), Under(|log|), |log| + 1);
    var after := Placed(nodes[1..], parent, |filled|);
    PlacedAfter(nodes, parent, log);
    LeavesCons(nodes);
    RunNode(nodes, parent, log, script, at);
    Extends(log, filled, after);
    Extends(made, filled, after);
    Extends(Run(Below(nodes[0]), Under(|log|), made, script, at + 1).log, filled, after);
  }

  /**
   With siblings that differ, whatever answers are lost: a replay that returns has made exactly the
   items of the tree, in order and beneath the right parents, and returns the number of request leaves.
   One that fails has made a prefix of them.
   */
  lemma {:induction false} ReplayIsExact(nodes: seq<Node>, parent: Parent, log: seq<Item>, script: Script, at: nat, seen: set<(Kind, string)>)
    requires SiblingsDiffer(nodes, seen) && Siblings(log, parent, seen) && Ordered(log)
    ensures Exact(Run(nodes, parent, log, script, at), log, Placed(nodes, parent, |log|), Leaves(nodes), WellPlaced(nodes))
    decreases Size(nodes)
  {
    if nodes != [] {
      SizeDecreases(nodes);
      var node, rest := nodes[0], nodes[1..];
      if node.NotARecord? {
        ReplayIsExact(rest, parent, log, script, at, seen);
      } else if !Misplaced(node) {
        var made := log + [Wanted(node, parent)];
        var filled := made + Placed(Below(node), Under(|log|), |log| + 1);
        CreateFresh(log, Wanted(node, parent), script(at), seen);
        AfterNode(log, node, parent, seen);
        ReplayIsExact(Below(node), Under(|log|), made, script, at + 1, {});
        var b := Run(Below(node), Under(|log|), made, script, at + 1);
        ReplayIsExact(rest, parent, filled, script, b.at, seen + {(node.kind, node.title)});
        NodeIsExact(nodes, parent, log, script, at);
      }
    }
  }

  // ---------- Reading the tree back ----------

  /** The tree beneath `parent`, from the items at places `lo` to `hi`. */
  function ReadBack(log: seq<Item>, parent: Parent, lo: nat, hi: nat): seq<Node>
    requires lo <= hi <= |log|
    decreases hi - lo
  {
    if lo == hi then []
    else
      var rest := ReadBack(log, parent, lo + 1, hi);
      if log[lo].parent == parent then
        [Node(log[lo].kind, log[lo].title, log[lo].body, ReadBack(log, Under(lo), lo + 1, hi))] + rest
      else rest
  }

  /** What a replay keeps of a tree. */
  function Kept(nodes: seq<Node>): seq<Node>
    decreases Size(nodes)
  {
    if nodes == [] then []
    else
      SizeDecreases(nodes);
      if nodes[0].NotARecord? then Kept(nodes[1..])
      else [nodes[0].(children := Kept(Below(nodes[0])))] + Kept(nodes[1..])
  }

  lemma {:induction false} NothingToRead(log: seq<Item>, parent: Parent, lo: nat, hi: nat)
    requires lo <= hi <= |log| && forall i :: lo <= i < hi ==> log[i].parent != parent
    ensures ReadBack(log, parent, lo, hi) == []
    decreases hi - lo
  {
    if lo < hi {
      NothingToRead(log, parent, lo + 1, hi);
    }
  }

  lemma {:induction false} SkipOthers(log: seq<Item>, parent: Parent, lo: nat, mid: nat, hi: nat)
    requires lo <= mid <= hi <= |log| && forall i :: lo <= i < mid ==> log[i].parent != parent
    ensures ReadBack(log, parent, lo, hi) == ReadBack(log, parent, mid, hi)
    decreases mid - lo
  {
    if lo < mid {
      SkipOthers(log, parent, lo + 1, mid, hi);
    }
  }

  /** Items after `mid` do not matter when none is beneath `parent` or beneath an item before `mid`. */
  lemma {:induction false} StopEarly(log: seq<Item>, parent: Parent, lo: nat, mid: nat, hi: nat)
    requires lo <= mid <= hi <= |log|
    requires forall i :: mid <= i < hi ==> log[i].parent != parent && !(log[i].parent.Under? && lo <= log[i].parent.id < mid)
    ensures ReadBack(log, parent, lo, hi) == ReadBack(log, parent, lo, mid)
    decreases mid - lo
  {
    if lo == mid {
      NothingToRead(log, parent, lo, hi);
    } else {
      StopEarly(log, parent, lo + 1, mid, hi);
      if log[lo].parent == parent {
        StopEarly(log, Under(lo), lo + 1, mid, hi);
      }
    }
  }

  /** Beneath an earlier parent, a node's items are read as the node, its own tree and what follows. */
  lemma ReadNode(log: seq<Item>, parent: Parent, lo: nat, mid: nat, hi: nat)
    requires lo < mid <= hi <= |log| && log[lo].parent == parent && (parent.Under? ==> parent.id < lo)
    requires ParentsWithin(log[lo + 1..mid], Under(lo), lo + 1) && ParentsWithin(log[mid..hi], parent, mid)
    ensures ReadBack(log, parent, lo, hi)
            == [Node(log[lo].kind, log[lo].title, log[lo].body, ReadBack(log, Under(lo), lo + 1, mid))] + ReadBack(log, parent, mid, hi)
  {
    forall i | lo + 1 <= i < mid ensures log[i].parent != parent {
      assert log[i] == log[lo + 1..mid][i - lo - 1];
    }
    forall i | mid <= i < hi ensures log[i].parent != Under(lo) && !(log[i].parent.Under? && lo + 1 <= log[i].parent.id < mid) {
      assert log[i] == log[mid..hi][i - mid];
    }
    SkipOthers(log, parent, lo + 1, mid, hi);
    StopEarly(log, Under(lo), lo + 1, mid, hi);
  }

  /** Reading the items of a tree gives the tree: same order, same parents, nothing twice. */
  lemma {:induction false} ReadsBack(nodes: seq<Node>, parent: Parent, log: seq<Item>, lo: nat, hi: nat)
    requires lo <= hi <= |log| && log[lo..hi] == Placed(nodes, parent, lo)
    requires parent.Under? ==> parent.id < lo
    ensures ReadBack(log, parent, lo, hi) == Kept(nodes)
    decreases Size(nodes)
  {
    if nodes != [] {
      SizeDecreases(nodes);
      if nodes[0].NotARecord? {
        ReadsBack(nodes[1..], parent, log, lo, hi);
      } else {
        var below := Placed(Below(nodes[0]), Under(lo), lo + 1);
        var mid := lo + 1 + |below|;
        PlacedCons(nodes, parent, lo);
        PlacedParents(Below(nodes[0]), Under(lo), lo + 1);
        PlacedParents(nodes[1..], parent, mid);
        SegmentSplits(log, Wanted(nodes[0], parent), below, Placed(nodes[1..], parent, mid), lo, hi);
        ReadNode(log, parent, lo, mid, hi);
        ReadsBack(Below(nodes[0]), Under(lo), log, lo + 1, mid);
        ReadsBack(nodes[1..], parent, log, mid, hi);
      }
    }
  }

  lemma SegmentSplits(log: seq<Item>, first: Item, below: seq<Item>, after: seq<Item>, lo: nat, hi: nat)
    requires lo <= hi <= |log| && log[lo..hi] == [first] + below + after
    ensures lo + 1 + |below| <= hi && log[lo] == first
    ensures log[lo + 1..lo + 1 + |below|] == below && log[lo + 1 + |below|..hi] == after
  {
    var seg := log[lo..hi];
    assert forall k :: 0 <= k < |seg| ==> seg[k] == log[lo + k];
    assert forall k :: 0 <= k < |below| ==> seg[1 + k] == below[k];
    assert forall k :: 0 <= k < |after| ==> seg[1 + |below| + k] == after[k];
  }

  // ---------- What is not kept ----------

  /** The tree without the entries that are not records. */
  function Records(nodes: seq<Node>): seq<Node> {
    if nodes == [] then []
    else if nodes[0].NotARecord? then Records(nodes[1..])
    else [nodes[0].(children := Records(nodes[0].children))] + Records(nodes[1..])
  }

  /** No record beneath a message of a raw or a Socket.IO request, at any level that is replayed. */
  predicate MessagesAreFlat(nodes: seq<Node>) {
    && (forall n :: n in nodes && n.Node? && n.kind.Folder? ==> MessagesAreFlat(n.children))
    && (forall n :: n in nodes && n.Node? && (n.kind == WsRawRequest || n.kind == WsSocketIoRequest) ==>
          forall c :: c in n.children && c.Node? ==> Records(c.children) == [])
  }

  lemma {:induction false} KeptOfFlat(nodes: seq<Node>)
    ensures Kept(Flat(nodes)) == Records(nodes) <==> forall c :: c in nodes && c.Node? ==> Records(c.children) == []
    ensures |Kept(Flat(nodes))| == |Records(nodes)|
  {
    if nodes != [] {
      KeptOfFlat(nodes[1..]);
      assert nodes == [nodes[0]] + nodes[1..];
      assert Flat(nodes)[1..] == Flat(nodes[1..]);
      if nodes[0].Node? {
        var flat := nodes[0].(children := []);
        assert Flat(nodes)[0] == flat && Below(flat) == [];
        assert Kept(Flat(nodes)) == [flat] + Kept(Flat(nodes[1..]));
        assert Kept(Flat(nodes))[1..] == Kept(Flat(nodes[1..])) && Records(nodes)[1..] == Records(nodes[1..]);
      }
    }
  }

  lemma FlatCons(nodes: seq<Node>)
    requires nodes != []
    ensures MessagesAreFlat(nodes) <==> MessagesAreFlat([nodes[0]]) && MessagesAreFlat(nodes[1..])
  {
    assert nodes == [nodes[0]] + nodes[1..];
    assert forall n :: n in nodes <==> n == nodes[0] || n in nodes[1..];
  }

  /** A well-placed tree is kept whole, but for entries that are not records, exactly when no message has children. */
  lemma {:induction false} KeptExactly(nodes: seq<Node>)
    requires WellPlaced(nodes)
    ensures Kept(nodes) == Records(nodes) <==> MessagesAreFlat(nodes)
    ensures |Kept(nodes)| == |Records(nodes)|
    decreases Size(nodes)
  {
    if nodes != [] {
      SizeDecreases(nodes);
      FlatCons(nodes);
      KeptExactly(nodes[1..]);
      var node := nodes[0];
      if node.Node? {
        assert nodes[0] in [node];
        if node.kind.Folder? {
          KeptExactly(node.children);
          assert MessagesAreFlat([node]) <==> MessagesAreFlat(node.children);
        } else if OwnsMessages(node.kind) {
          KeptOfFlat(node.children);
        } else {
          assert node.children == [];
        }
        KeptCons(nodes);
      }
    }
  }

  lemma KeptCons(nodes: seq<Node>)
    requires nodes != [] && nodes[0].Node?
    ensures Kept(nodes) == Records(nodes) <==>
              Kept(Below(nodes[0])) == Records(nodes[0].children) && Kept(nodes[1..]) == Records(nodes[1..])
    ensures |Kept(nodes)| == 1 + |Kept(nodes[1..])| && |Records(nodes)| == 1 + |Records(nodes[1..])|
  {
    var kept, records := Kept(nodes), Records(nodes);
    assert kept == [nodes[0].(children := Kept(Below(nodes[0])))] + Kept(nodes[1..]);
    assert records == [nodes[0].(children := Records(nodes[0].children))] + Records(nodes[1..]);
    assert kept == records <==> kept[0] == records[0] && kept[1..] == records[1..];
  }

  // ---------- Siblings that do not differ ----------

  /** Every create is answered but the one at `k`, whose answer is lost before the server commits. */
  function LoseAt(k: nat): Script {
    i => if i == k then Lost(false, true) else Accepted
  }

  /** The outcome of a replay whose every create is answered. */
  function Whole(nodes: seq<Node>, parent: Parent, log: seq<Item>, at: nat): Outcome {
    var placed := Placed(nodes, parent, |log|);
    Outcome(log + placed, at + |placed|, Success(Leaves(nodes)))
  }

  lemma WholeNode(nodes: seq<Node>, parent: Parent, log: seq<Item>, script: Script, at: nat)
    requires nodes != [] && nodes[0].Node? && !Misplaced(nodes[0]) && script(at) == Accepted
    requires var made := log + [Wanted(nodes[0], parent)];
             var b := Whole(Below(nodes[0]), Under(|log|), made, at + 1);
             && Run(Below(nodes[0]), Under(|log|), made, script, at + 1) == b
             && Run(nodes[1..], parent, b.log, script, b.at) == Whole(nodes[1..], parent, b.log, b.at)
    ensures Run(nodes, parent, log, script, at) == Whole(nodes, parent, log, at)
  {
    hide Run, Placed, Leaves, Below, WellPlaced;
    PlacedAfter(nodes, parent, log);
    LeavesCons(nodes);
    RunNode(nodes, parent, log, script, at);
    var filled := log + [Wanted(nodes[0], parent)] + Placed(Below(nodes[0]), Under(|log|), |log| + 1);
    assert |log| + |Placed(nodes, parent, |log|)| == |filled| + |Placed(nodes[1..], parent, |filled|)|;
  }

  lemma {:induction false} AnsweredRun(nodes: seq<Node>, parent: Parent, log: seq<Item>, k: nat, at: nat)
    requires WellPlaced(nodes) && (k < at || at + |Placed(nodes, parent, |log|)| <= k)
    ensures Run(nodes, parent, log, LoseAt(k), at) == Whole(nodes, parent, log, at)
    decreases Size(nodes)
  {
    if nodes != [] {
      SizeDecreases(nodes);
      if nodes[0].NotARecord? {
        AnsweredRun(nodes[1..], parent, log, k, at);
      } else {
        AnsweredCounts(nodes, parent, log);
        var b := Whole(Below(nodes[0]), Under(|log|), log + [Wanted(nodes[0], parent)], at + 1);
        AnsweredRun(Below(nodes[0]), Under(|log|), log + [Wanted(nodes[0], parent)], k, at + 1);
        AnsweredRun(nodes[1..], parent, b.log, k, b.at);
        WholeNode(nodes, parent, log, LoseAt(k), at);
      }
    }
  }

  lemma AnsweredCounts(nodes: seq<Node>, parent: Parent, log: seq<Item>)
    requires nodes != [] && nodes[0].Node? && WellPlaced(nodes)
    ensures var made := log + [Wanted(nodes[0], parent)];
            var below := Placed(Below(nodes[0]), Under(|log|), |made|);
            && |Placed(nodes, parent, |log|)| == 1 + |below| + |Placed(nodes[1..], parent, |made + below|)|
            && !Misplaced(nodes[0]) && WellPlaced(Below(nodes[0])) && WellPlaced(nodes[1..])
  {
    hide Run, Placed, Leaves, Below, WellPlaced;
    PlacedCons(nodes, parent, |log|);
    LeavesCons(nodes);
  }

  /** The children of `parent` are exactly as `seen` says, each once. */
  ghost predicate EachOnce(log: seq<Item>, parent: Parent, seen: set<(Kind, string)>) {
    && Siblings(log, parent, seen)
    && (forall key, body :: key in seen ==> |Found(log, Item(key.0, key.1, parent, body))| == 1)
  }

  lemma {:induction false} FoundIgnores(log: seq<Item>, more: seq<Item>, want: Item)
    requires forall i :: 0 <= i < |more| ==> !Matches(more[i], want)
    ensures Found(log + more, want) == Found(log, want)
  {
    if more == [] {
      assert log + more == log;
    } else {
      var n := |more| - 1;
      FoundIgnores(log, more[..n], want);
      assert (log + more)[..|log| + n] == log + more[..n];
    }
  }

  lemma NoneFound(log: seq<Item>, want: Item)
    requires forall i :: 0 <= i < |log| ==> !Matches(log[i], want)
    ensures Found(log, want) == []
  {
    assert [] + log == log;
    FoundIgnores([], log, want);
  }

  lemma OnceMore(log: seq<Item>, node: Node, parent: Parent, seen: set<(Kind, string)>)
    requires node.Node? && Ordered(log) && EachOnce(log, parent, seen) && (node.kind, node.title) !in seen
    ensures EachOnce(log + [Wanted(node, parent)] + Placed(Below(node), Under(|log|), |log| + 1), parent, seen + {(node.kind, node.title)})
  {
    var made := log + [Wanted(node, parent)];
    var below := Placed(Below(node), Under(|log|), |log| + 1);
    AfterNode(log, node, parent, seen);
    PlacedParents(Below(node), Under(|log|), |log| + 1);
    forall key, body | key in seen + {(node.kind, node.title)}
      ensures |Found(made + below, Item(key.0, key.1, parent, body))| == 1
    {
      var want := Item(key.0, key.1, parent, body);
      FoundIgnores(made, below, want);
      assert made[..|log|] == log;
      if key !in seen {
        NoneFound(log, want);
      }
    }
  }

  /** A replay that made too few items, and yet returned. */
  ghost predicate Short(o: Outcome, log: seq<Item>, at: nat, count: nat) {
    o.result.Success? && |o.log| < |log| + count && o.at == at + count
  }

  lemma ShortAtHead(nodes: seq<Node>, parent: Parent, log: seq<Item>, at: nat, seen: set<(Kind, string)>)
    requires WellPlaced(nodes) && nodes != [] && nodes[0].Node?
    requires EachOnce(log, parent, seen) && (nodes[0].kind, nodes[0].title) in seen
    ensures Short(Run(nodes, parent, log, LoseAt(at), at), log, at, |Placed(nodes, parent, |log|)|)
  {
    hide Run, Placed, Leaves, Below, WellPlaced, Found;
    var node, rest := nodes[0], nodes[1..];
    LeavesCons(nodes);
    PlacedCons(nodes, parent, |log|);
    RunNode(nodes, parent, log, LoseAt(at), at);
    var want := Wanted(node, parent);
    assert |Found(log, Item((node.kind, node.title).0, (node.kind, node.title).1, parent, node.body))| == 1;
    var id := Found(log, want)[0];
    var below := Placed(Below(node), Under(id), |log|);
    AnsweredRun(Below(node), Under(id), log, at, at + 1);
    AnsweredRun(rest, parent, log + below, at, at + 1 + |below|);
    PlacedCount(Below(node), Under(id), Under(|log|), |log|, |log| + 1);
    PlacedCount(rest, parent, parent, |log + below|, |log| + 1 + |below|);
  }

  function Made(log: seq<Item>, node: Node, parent: Parent): seq<Item>
    requires node.Node?
  {
    log + [Wanted(node, parent)]
  }

  function MadeBelow(log: seq<Item>, node: Node): seq<Item>
    requires node.Node?
  {
    Placed(Below(node), Under(|log|), |log| + 1)
  }

  /** The log after a node and everything beneath it. */
  function Filled(log: seq<Item>, node: Node, parent: Parent): seq<Item>
    requires node.Node?
  {
    Made(log, node, parent) + MadeBelow(log, node)
  }

  lemma ShortBelow(nodes: seq<Node>, parent: Parent, log: seq<Item>, at: nat, k: nat)
    requires WellPlaced(nodes) && nodes != [] && nodes[0].Node?
    requires at + 1 <= k < at + 1 + |MadeBelow(log, nodes[0])|
    requires Short(Run(Below(nodes[0]), Under(|log|), Made(log, nodes[0], parent), LoseAt(k), at + 1),
                   Made(log, nodes[0], parent), at + 1, |MadeBelow(log, nodes[0])|)
    ensures Short(Run(nodes, parent, log, LoseAt(k), at), log, at, |Placed(nodes, parent, |log|)|)
  {
    hide Run, Placed, Leaves, Below, WellPlaced, Found, Wanted;
    LeavesCons(nodes);
    PlacedCons(nodes, parent, |log|);
    RunNode(nodes, parent, log, LoseAt(k), at);
    var below := Placed(Below(nodes[0]), Under(|log|), |log| + 1);
    var b := Run(Below(nodes[0]), Under(|log|), log + [Wanted(nodes[0], parent)], LoseAt(k), at + 1);
    PlacedCount(nodes[1..], parent, parent, |b.log|, |log| + 1 + |below|);
    AnsweredRun(nodes[1..], parent, b.log, k, b.at);
  }

  lemma ShortAfter(nodes: seq<Node>, parent: Parent, log: seq<Item>, at: nat, k: nat)
    requires WellPlaced(nodes) && nodes != [] && nodes[0].Node?
    requires at + 1 + |MadeBelow(log, nodes[0])| <= k
    requires var filled := Filled(log, nodes[0], parent);
             Short(Run(nodes[1..], parent, filled, LoseAt(k), at + 1 + |MadeBelow(log, nodes[0])|), filled,
                   at + 1 + |MadeBelow(log, nodes[0])|, |Placed(nodes[1..], parent, |filled|)|)
    ensures Short(Run(nodes, parent, log, LoseAt(k), at), log, at, |Placed(nodes, parent, |log|)|)
  {
    hide Run, Placed, Leaves, Below, WellPlaced, Found, Wanted;
    LeavesCons(nodes);
    PlacedCons(nodes, parent, |log|);
    RunNode(nodes, parent, log, LoseAt(k), at);
    AnsweredRun(Below(nodes[0]), Under(|log|), log + [Wanted(nodes[0], parent)], k, at + 1);
  }

  lemma NonRecordsAreSkipped(nodes: seq<Node>, parent: Parent, log: seq<Item>, script: Script, at: nat)
    requires nodes != [] && nodes[0].NotARecord?
    ensures Run(nodes, parent, log, script, at) == Run(nodes[1..], parent, log, script, at)
    ensures Placed(nodes, parent, |log|) == Placed(nodes[1..], parent, |log|)
    ensures WellPlaced(nodes) <==> WellPlaced(nodes[1..])
  {
  }

  /** Where two siblings have the same type and title, one lost answer makes a replay return short. */
  lemma {:induction false} ShortRun(nodes: seq<Node>, parent: Parent, log: seq<Item>, at: nat, seen: set<(Kind, string)>) returns (k: nat)
    requires WellPlaced(nodes) && !SiblingsDiffer(nodes, seen) && EachOnce(log, parent, seen) && Ordered(log)
    ensures at <= k < at + |Placed(nodes, parent, |log|)|
    ensures Short(Run(nodes, parent, log, LoseAt(k), at), log, at, |Placed(nodes, parent, |log|)|)
    decreases Size(nodes), 1
  {
    hide *;
    SiblingsAlike(nodes, seen);
    if nodes[0].NotARecord? {
      SizeDecreases(nodes);
      NonRecordsAreSkipped(nodes, parent, log, LoseAt(0), at);
      k := ShortRun(nodes[1..], parent, log, at, seen);
      NonRecordsAreSkipped(nodes, parent, log, LoseAt(k), at);
    } else if (nodes[0].kind, nodes[0].title) in seen {
      k := at;
      PlacedCounts(nodes, parent, log);
      ShortAtHead(nodes, parent, log, at, seen);
    } else if !SiblingsDiffer(Below(nodes[0]), {}) {
      k := ShortRunBelow(nodes, parent, log, at, seen);
    } else {
      k := ShortRunAfter(nodes, parent, log, at, seen);
    }
  }

  lemma {:induction false} ShortRunBelow(nodes: seq<Node>, parent: Parent, log: seq<Item>, at: nat, seen: set<(Kind, string)>) returns (k: nat)
    requires WellPlaced(nodes) && nodes != [] && nodes[0].Node? && EachOnce(log, parent, seen) && Ordered(log)
    requires (nodes[0].kind, nodes[0].title) !in seen && !SiblingsDiffer(Below(nodes[0]), {})
    ensures at <= k < at + |Placed(nodes, parent, |log|)|
    ensures Short(Run(nodes, parent, log, LoseAt(k), at), log, at, |Placed(nodes, parent, |log|)|)
    decreases Size(nodes), 0
  {
    hide *;
    SizeDecreases(nodes);
    LeavesCons(nodes);
    PlacedCounts(nodes, parent, log);
    MadeOnce(log, nodes[0], parent, seen);
    k := ShortRun(Below(nodes[0]), Under(|log|), Made(log, nodes[0], parent), at + 1, {});
    ShortBelow(nodes, parent, log, at, k);
  }

  lemma {:induction false} ShortRunAfter(nodes: seq<Node>, parent: Parent, log: seq<Item>, at: nat, seen: set<(Kind, string)>) returns (k: nat)
    requires WellPlaced(nodes) && nodes != [] && nodes[0].Node? && EachOnce(log, parent, seen) && Ordered(log)
    requires (nodes[0].kind, nodes[0].title) !in seen && !SiblingsDiffer(nodes[1..], seen + {(nodes[0].kind, nodes[0].title)})
    ensures at <= k < at + |Placed(nodes, parent, |log|)|
    ensures Short(Run(nodes, parent, log, LoseAt(k), at), log, at, |Placed(nodes, parent, |log|)|)
    decreases Size(nodes), 0
  {
    hide *;
    SizeDecreases(nodes);
    LeavesCons(nodes);
    PlacedCounts(nodes, parent, log);
    MadeOnce(log, nodes[0], parent, seen);
    k := ShortRun(nodes[1..], parent, Filled(log, nodes[0], parent), at + 1 + |MadeBelow(log, nodes[0])|,
                  seen + {(nodes[0].kind, nodes[0].title)});
    ShortAfter(nodes, parent, log, at, k);
  }

  lemma SiblingsAlike(nodes: seq<Node>, seen: set<(Kind, string)>)
    requires !SiblingsDiffer(nodes, seen)
    ensures nodes != []
    ensures nodes[0].NotARecord? ==> !SiblingsDiffer(nodes[1..], seen)
    ensures nodes[0].Node? && (nodes[0].kind, nodes[0].title) !in seen ==>
              || !SiblingsDiffer(Below(nodes[0]), {})
              || !SiblingsDiffer(nodes[1..], seen + {(nodes[0].kind, nodes[0].title)})
  {
  }

  lemma PlacedCounts(nodes: seq<Node>, parent: Parent, log: seq<Item>)
    requires nodes != [] && nodes[0].Node?
    ensures MadeBelow(log, nodes[0]) == Placed(Below(nodes[0]), Under(|log|), |Made(log, nodes[0], parent)|)
    ensures |Placed(nodes, parent, |log|)| == 1 + |MadeBelow(log, nodes[0])| + |Placed(nodes[1..], parent, |Filled(log, nodes[0], parent)|)|
  {
    hide Placed, Below;
    PlacedCons(nodes, parent, |log|);
  }

  /** After a node that no earlier sibling is like, its own items and those of the parent are each there once. */
  lemma MadeOnce(log: seq<Item>, node: Node, parent: Parent, seen: set<(Kind, string)>)
    requires node.Node? && Ordered(log) && EachOnce(log, parent, seen) && (node.kind, node.title) !in seen
    ensures Ordered(Made(log, node, parent)) && EachOnce(Made(log, node, parent), Under(|log|), {})
    ensures Ordered(Filled(log, node, parent)) && EachOnce(Filled(log, node, parent), parent, seen + {(node.kind, node.title)})
  {
    AfterNode(log, node, parent, seen);
    OnceMore(log, node, parent, seen);
  }

  // ---------- The same by kinds ----------

  /** At some level that is replayed, a node that is no folder, no raw and no Socket.IO request has children. */
  predicate Offends(nodes: seq<Node>) {
    exists n :: n in nodes && n.Node? &&
      ((n.kind.Other? && n.children != []) || (n.kind == Folder && Offends(n.children)))
  }

  /** Messages lose their own children. */
  function Messages(nodes: seq<Node>): seq<Node> {
    if nodes == [] then []
    else (if nodes[0].Node? then [nodes[0].(children := [])] else []) + Messages(nodes[1..])
  }

  /** What a replay keeps: folders with what they hold, both kinds of message-owning requests with their messages. */
  function AsKept(nodes: seq<Node>): seq<Node> {
    if nodes == [] then []
    else
      var rest := AsKept(nodes[1..]);
      match nodes[0]
      case NotARecord => rest
      case Node(Folder, _, _, children) => [nodes[0].(children := AsKept(children))] + rest
      case Node(WsRawRequest, _, _, children) => [nodes[0].(children := Messages(children))] + rest
      case Node(WsSocketIoRequest, _, _, children) => [nodes[0].(children := Messages(children))] + rest
      case Node(Other(_), _, _, _) => [nodes[0].(children := [])] + rest
  }

  /** The requests of a tree; messages are none. */
  function Requests(nodes: seq<Node>): nat {
    if nodes == [] then 0
    else
      (match nodes[0]
       case NotARecord => 0
       case Node(Folder, _, _, children) => Requests(children)
       case _ => 1)
      + Requests(nodes[1..])
  }

  lemma OffendsCons(nodes: seq<Node>)
    requires nodes != []
    ensures Offends(nodes) <==> Offends([nodes[0]]) || Offends(nodes[1..])
    ensures Offends([nodes[0]]) <==>
              nodes[0].Node? && ((nodes[0].kind.Other? && nodes[0].children != []) || (nodes[0].kind == Folder && Offends(nodes[0].children)))
  {
    assert nodes == [nodes[0]] + nodes[1..];
    assert forall n :: n in nodes <==> n == nodes[0] || n in nodes[1..];
    assert nodes[0] in [nodes[0]];
  }

  lemma {:induction false} FlatIsWellPlaced(nodes: seq<Node>)
    ensures WellPlaced(Flat(nodes)) && Kept(Flat(nodes)) == Messages(nodes)
  {
    if nodes != [] {
      FlatIsWellPlaced(nodes[1..]);
      var flat := Flat(nodes);
      assert flat[1..] == Flat(nodes[1..]);
      if nodes[0].Node? {
        assert flat[0] == nodes[0].(children := []) && Below(flat[0]) == [];
      }
    }
  }

  lemma {:induction false} OffendsExactly(nodes: seq<Node>)
    ensures WellPlaced(nodes) <==> !Offends(nodes)
    decreases Size(nodes)
  {
    if nodes != [] {
      SizeDecreases(nodes);
      OffendsCons(nodes);
      OffendsExactly(nodes[1..]);
      if nodes[0].Node? {
        match nodes[0].kind
        case Folder => OffendsExactly(nodes[0].children);
        case WsRawRequest => FlatIsWellPlaced(nodes[0].children);
        case WsSocketIoRequest => FlatIsWellPlaced(nodes[0].children);
        case Other(_) =>
      }
    }
  }

  lemma {:induction false} KeptAs(nodes: seq<Node>)
    ensures Kept(nodes) == AsKept(nodes) && Leaves(nodes) == Requests(nodes)
    decreases Size(nodes)
  {
    if nodes != [] {
      SizeDecreases(nodes);
      KeptAs(nodes[1..]);
      if nodes[0].Node? {
        match nodes[0].kind
        case Folder => KeptAs(nodes[0].children);
        case WsRawRequest => FlatIsWellPlaced(nodes[0].children);
        case WsSocketIoRequest => FlatIsWellPlaced(nodes[0].children);
        case Other(_) =>
      }
    }
  }

  lemma {:induction false} AcceptedRun(nodes: seq<Node>, parent: Parent, log: seq<Item>, script: Script, at: nat)
    requires WellPlaced(nodes) && forall i :: script(i) == Accepted
    ensures Run(nodes, parent, log, script, at) == Whole(nodes, parent, log, at)
    decreases Size(nodes)
  {
    if nodes != [] {
      SizeDecreases(nodes);
      if nodes[0].NotARecord? {
        AcceptedRun(nodes[1..], parent, log, script, at);
      } else {
        LeavesCons(nodes);
        var made := log + [Wanted(nodes[0], parent)];
        AcceptedRun(Below(nodes[0]), Under(|log|), made, script, at + 1);
        var b := Whole(Below(nodes[0]), Under(|log|), made, at + 1);
        AcceptedRun(nodes[1..], parent, b.log, script, b.at);
        WholeNode(nodes, parent, log, script, at);
      }
    }
  }

  /**
   With every create accepted a replay fails exactly when a node that may have none has children; otherwise
   the items read back as the tree with its messages, and the requests are counted.
   */
  lemma {:induction false} AcceptedReplay(nodes: seq<Node>, log: seq<Item>, script: Script)
    requires forall i :: script(i) == Accepted
    ensures var o := Run(nodes, Collection, log, script, 0);
            && (o.result.Failure? <==> Offends(nodes))
            && (o.result.Success? ==>
                  && log <= o.log && o.result.value == Requests(nodes)
                  && ReadBack(o.log, Collection, |log|, |o.log|) == AsKept(nodes))
  {
    OffendsExactly(nodes);
    if Offends(nodes) {
      MalformedNeverReturns(nodes, Collection, log, script, 0);
    } else {
      KeptAs(nodes);
      AcceptedRun(nodes, Collection, log, script, 0);
      ReadsBack(nodes, Collection, log + Placed(nodes, Collection, |log|), |log|, |log| + |Placed(nodes, Collection, |log|)|);
    }
  }

  /** What a return promises: the tree can be read back from the new items, and the number counts the leaves. */
  ghost predicate Faithful(nodes: seq<Node>, log: seq<Item>, o: Outcome) {
    o.result.Success? ==>
      && log <= o.log
      && o.log[|log|..] == Placed(nodes, Collection, |log|)
      && ReadBack(o.log, Collection, |log|, |o.log|) == AsKept(nodes)
      && o.result.value == Requests(nodes)
  }

  /**
   On a collection with nothing at its top level: every replay that returns is faithful, whatever answers
   are lost, exactly when siblings differ in type or title.
   */
  lemma {:induction false} FaithfulExactly(nodes: seq<Node>, log: seq<Item>)
    requires !Offends(nodes) && Ordered(log) && forall i :: 0 <= i < |log| ==> log[i].parent != Collection
    ensures (forall script: Script :: Faithful(nodes, log, Run(nodes, Collection, log, script, 0))) <==> SiblingsDiffer(nodes, {})
  {
    OffendsExactly(nodes);
    KeptAs(nodes);
    if SiblingsDiffer(nodes, {}) {
      forall script: Script ensures Faithful(nodes, log, Run(nodes, Collection, log, script, 0)) {
        var o := Run(nodes, Collection, log, script, 0);
        ReplayIsExact(nodes, Collection, log, script, 0, {});
        if o.result.Success? {
          ReadsBack(nodes, Collection, o.log, |log|, |o.log|);
        }
      }
    } else {
      var k := ShortRun(nodes, Collection, log, 0, {});
      assert !Faithful(nodes, log, Run(nodes, Collection, log, LoseAt(k), 0));
    }
  }

  /** A tree with children where none may be never replays to the end. */
  lemma {:induction false} MalformedNeverReturns(nodes: seq<Node>, parent: Parent, log: seq<Item>, script: Script, at: nat)
    requires !WellPlaced(nodes)
    ensures Run(nodes, parent, log, script, at).result.Failure?
    decreases Size(nodes)
  {
    SizeDecreases(nodes);
    if nodes[0].NotARecord? {
      MalformedNeverReturns(nodes[1..], parent, log, script, at);
    } else if !Misplaced(nodes[0]) {
      LeavesCons(nodes);
      RunNode(nodes, parent, log, script, at);
      var (created, log') := Create(log, Wanted(nodes[0], parent), script(at));
      if created.Success? {
        var below := Run(Below(nodes[0]), Under(created.value), log', script, at + 1);
        if !WellPlaced(Below(nodes[0])) {
          MalformedNeverReturns(Below(nodes[0]), Under(created.value), log', script, at + 1);
        } else {
          MalformedNeverReturns(nodes[1..], parent, below.log, script, below.at);
        }
      }
    }
  }

  // ---------- The client ----------

  ghost predicate Ends(o: Outcome, log: seq<Item>, at: nat, failed: Option<Error>) {
    log == o.log && at == o.at && failed == if o.result.Failure? then Some(o.result.error) else None
  }

  /** After `leaves` leaves of a replay, the replay of the nodes from `i` on is what remains of `whole`. */
  ghost predicate Remains(nodes: seq<Node>, i: nat, parent: Parent, log: seq<Item>, script: Script, at: nat, leaves: nat, whole: Outcome) {
    i <= |nodes| && Plus(leaves, Run(nodes[i..], parent, log, script, at)) == whole
  }

  lemma RemainsStep(nodes: seq<Node>, i: nat, parent: Parent, log: seq<Item>, script: Script, at: nat, leaves: nat, whole: Outcome)
    requires i < |nodes| && Remains(nodes, i, parent, log, script, at, leaves, whole)
    ensures nodes[i].NotARecord? ==> Remains(nodes, i + 1, parent, log, script, at, leaves, whole)
    ensures nodes[i].Node? && Misplaced(nodes[i]) ==> whole == Outcome(log, at, Failure(TreeInvalid))
    ensures nodes[i].Node? && !Misplaced(nodes[i]) ==>
              var (created, log') := Create(log, Wanted(nodes[i], parent), script(at));
              if created.Failure? then whole == Outcome(log', at + 1, Failure(created.error))
              else
                var b := Run(Below(nodes[i]), Under(created.value), log', script, at + 1);
                if b.result.Failure? then whole == b
                else Remains(nodes, i + 1, parent, b.log, script, b.at, leaves + (if nodes[i].kind.Folder? then b.result.value else 1), whole)
  {
    hide Run, Create, Below, Misplaced, Wanted;
    var rest := nodes[i..];
    assert rest[0] == nodes[i] && rest[1..] == nodes[i + 1..];
    if nodes[i].NotARecord? {
      NonRecordsAreSkipped(rest, parent, log, script, at);
    } else if Misplaced(nodes[i]) {
      MisplacedEnds(rest, parent, log, script, at);
    } else {
      RunNode(rest, parent, log, script, at);
    }
  }

  lemma MisplacedEnds(nodes: seq<Node>, parent: Parent, log: seq<Item>, script: Script, at: nat)
    requires nodes != [] && nodes[0].Node? && Misplaced(nodes[0])
    ensures Run(nodes, parent, log, script, at) == Outcome(log, at, Failure(TreeInvalid))
  {
  }

  lemma RunNothing(parent: Parent, log: seq<Item>, script: Script, at: nat)
    ensures Run([], parent, log, script, at) == Outcome(log, at, Success(0))
  {
  }

  lemma RemainsNothing(nodes: seq<Node>, parent: Parent, log: seq<Item>, script: Script, at: nat, leaves: nat, whole: Outcome)
    requires Remains(nodes, |nodes|, parent, log, script, at, leaves, whole)
    ensures whole == Outcome(log, at, Success(leaves))
  {
    assert nodes[|nodes|..] == [];
  }

  lemma {:induction false} BelowIsSmaller(nodes: seq<Node>, i: nat)
    requires i < |nodes| && nodes[i].Node?
    ensures Size(nodes[i].children) < Size(nodes)
  {
    if i > 0 {
      BelowIsSmaller(nodes[1..], i - 1);
    }
  }

  datatype Reply = Created(id: nat) | CreatedWithoutId | Rejection | TransportError

  class EcServer {
    const script: Script
    var at: nat
    var log: seq<Item>
    var listable: bool

    constructor (script: Script, log: seq<Item>)
      ensures this.script == script && this.at == 0 && this.log == log
    {
      this.script, this.at, this.log, this.listable := script, 0, log, true;
    }

    method Post(want: Item) returns (reply: Reply)
      modifies this
      ensures at == old(at) + 1
      ensures log == Create(old(log), want, script(old(at))).1
      ensures match script(old(at))
              case Accepted => reply == Created(|old(log)|)
              case AcceptedWithoutId => reply == CreatedWithoutId
              case RefusedOutright => reply == Rejection
              case Lost(_, listed) => reply == TransportError && listable == listed
    {
      var answer := script(at);
      at := at + 1;
      match answer
      case Accepted =>
        reply := Created(|log|);
        log := log + [want];
      case AcceptedWithoutId =>
        reply := CreatedWithoutId;
        log := log + [want];
      case RefusedOutright =>
        reply := Rejection;
      case Lost(committed, listed) =>
        if committed {
          log := log + [want];
        }
        listable := listed;
        reply := TransportError;
    }

    method List() returns (items: Option<seq<Item>>)
      ensures items == if listable then Some(log) else None
    {
      items := if listable then Some(log) else None;
    }
  }

  class EcClient {
    const server: EcServer
    var leafCount: nat

    constructor (server: EcServer)
      ensures this.server == server
    {
      this.server := server;
      leafCount := 0;
    }

    method CreateItem(want: Item) returns (created: Result<nat, Error>)
      modifies server
      ensures server.at == old(server.at) + 1
      ensures (created, server.log) == Create(old(server.log), want, server.script(old(server.at)))
    {
      var reply := server.Post(want);
      match reply
      case Created(id) => created := Success(id);
      case CreatedWithoutId => created := Failure(NoId);
      case Rejection => created := Failure(Refused);
      case TransportError =>
        var items := server.List();
        match items
        case None => created := Failure(ListFailed);
        case Some(log) => created := AdoptExactMatch(Found(log, want));
    }

    /** The messages of a request, created beneath it; they are not counted. */
    method CreateMessages(nodes: seq<Node>, request: nat) returns (failed: Option<Error>)
      modifies server
      ensures Ends(Run(Flat(nodes), Under(request), old(server.log), server.script, old(server.at)), server.log, server.at, failed)
    {
      hide Run, Create;
      ghost var flat := Flat(nodes);
      ghost var whole := Run(flat, Under(request), server.log, server.script, server.at);
      ghost var made := 0;
      assert flat[0..] == flat;
      for i := 0 to |nodes|
        invariant Remains(flat, i, Under(request), server.log, server.script, server.at, made, whole)
      {
        FlatAt(nodes, i);
        RemainsStep(flat, i, Under(request), server.log, server.script, server.at, made, whole);
        if nodes[i].Node? {
          assert Below(flat[i]) == [] && Wanted(flat[i], Under(request)) == Wanted(nodes[i], Under(request));
          var created := CreateItem(Wanted(nodes[i], Under(request)));
          if created.Failure? {
            return Some(created.error);
          }
          RunNothing(Under(created.value), server.log, server.script, server.at);
          made := made + if nodes[i].kind.Folder? then 0 else 1;
        }
      }
      RemainsNothing(flat, Under(request), server.log, server.script, server.at, made, whole);
      failed := None;
    }

    method CreateChildren(nodes: seq<Node>, parent: Parent) returns (failed: Option<Error>)
      modifies this, server
      ensures Ends(Run(nodes, parent, old(server.log), server.script, old(server.at)), server.log, server.at, failed)
      ensures failed.None? ==>
                leafCount == old(leafCount) + Run(nodes, parent, old(server.log), server.script, old(server.at)).result.value
      decreases Size(nodes)
    {
      hide Run, Create, Flat, Size;
      ghost var whole := Run(nodes, parent, server.log, server.script, server.at);
      ghost var start := leafCount;
      assert nodes[0..] == nodes;
      for i := 0 to |nodes|
        invariant leafCount >= start
        invariant Remains(nodes, i, parent, server.log, server.script, server.at, leafCount - start, whole)
      {
        var node := nodes[i];
        RemainsStep(nodes, i, parent, server.log, server.script, server.at, leafCount - start, whole);
        if node.Node? {
          if Misplaced(node) {
            return Some(TreeInvalid);
          }
          var created := CreateItem(Wanted(node, parent));
          if created.Failure? {
            return Some(created.error);
          }
          BelowIsSmaller(nodes, i);
          if node.kind.Folder? {
            failed := CreateChildren(node.children, Under(created.value));
            if failed.Some? {
              return;
            }
          } else if OwnsMessages(node.kind) {
            failed := CreateMessages(node.children, created.value);
            if failed.Some? {
              return;
            }
            leafCount := leafCount + 1;
          } else {
            RunNothing(Under(created.value), server.log, server.script, server.at);
            leafCount := leafCount + 1;
          }
        }
      }
      RemainsNothing(nodes, parent, server.log, server.script, server.at, leafCount - start, whole);
      failed := None;
    }

    method PopulateFromTree(nodes: seq<Node>) returns (leaves: Result<nat, Error>)
      modifies this, server
      ensures var o := Run(nodes, Collection, old(server.log), server.script, old(server.at));
              server.log == o.log && leaves == o.result
    {
      leafCount := 0;
      var failed := CreateChildren(nodes, Collection);
      leaves := if failed.Some? then Failure(failed.value) else Success(leafCount);
    }
  }

  lemma {:induction false} FlatAt(nodes: seq<Node>, i: nat)
    requires i < |nodes|
    ensures Flat(nodes)[i] == if nodes[i].NotARecord? then NotARecord else nodes[i].(children := [])
  {
    if i > 0 {
      FlatAt(nodes[1..], i - 1);
    }
  }
}
