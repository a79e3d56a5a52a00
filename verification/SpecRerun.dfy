/** Normalizing a specification before upload and stamping it, so that an unchanged rerun uploads nothing. */
module SpecRerun {
  import opened Wrappers

  // ---------- Trimming ----------

  type Space = char -> bool

  function TrimStart(space: Space, s: string): (r: string)
    ensures |r| <= |s| && (r != "" ==> !space(r[0]))
    ensures s != "" && !space(s[0]) ==> r == s
  {
    if s != "" && space(s[0]) then TrimStart(space, s[1..]) else s
  }

  function TrimEnd(space: Space, s: string): (r: string)
    ensures r <= s && (r != "" ==> !space(r[|r| - 1]))
    ensures s != "" && !space(s[|s| - 1]) ==> r == s
    ensures s != "" && !space(s[0]) ==> r != ""
  {
    if s != "" && space(s[|s| - 1]) then TrimEnd(space, s[..|s| - 1]) else s
  }

  function Trim(space: Space, s: string): (r: string)
    ensures |r| <= |s|
  {
    TrimEnd(space, TrimStart(space, s))
  }

  lemma TrimFacts(space: Space, s: string)
    ensures Trim(space, s) != "" ==> !space(Trim(space, s)[0]) && !space(Trim(space, s)[|Trim(space, s)| - 1])
    ensures Trim(space, Trim(space, s)) == Trim(space, s)
    ensures s != "" && !space(s[0]) && !space(s[|s| - 1]) ==> Trim(space, s) == s
    ensures s != "" && !space(s[0]) ==> Trim(space, s) != ""
  {
    var front := TrimStart(space, s);
    var r := TrimEnd(space, front);
    if r != "" {
      assert r[0] == front[0];
    }
  }

  // ---------- Operations ----------

  const MAX_SUMMARY := 200
  const ELLIPSIS := 0x2026 as char

  datatype Verb = Get | Put | Post | Delete | Options | Head | Patch | Trace

  function Name(verb: Verb): string {
    match verb
    case Get => "GET"
    case Put => "PUT"
    case Post => "POST"
    case Delete => "DELETE"
    case Options => "OPTIONS"
    case Head => "HEAD"
    case Patch => "PATCH"
    case Trace => "TRACE"
  }

  /** An operation under one of the HTTP methods; `rest` is what else it holds, and how the method is spelled. */
  datatype Operation = Operation(verb: Verb, path: string, summary: Option<string>, operationId: Option<string>, rest: string)

  function Truncated(s: string): string {
    if |s| > MAX_SUMMARY then s[..MAX_SUMMARY - 1] + [ELLIPSIS] else s
  }

  function Own(space: Space, op: Operation): string {
    if op.summary.Some? then Trim(space, op.summary.value) else ""
  }

  function Wanted(space: Space, op: Operation): string {
    var id := if op.operationId.Some? then Trim(space, op.operationId.value) else "";
    if Own(space, op) != "" then Own(space, op) else if id != "" then id else Name(op.verb) + " " + op.path
  }

  /** The summary that an operation should have. */
  function SummaryFor(space: Space, op: Operation): string {
    Truncated(Wanted(space, op))
  }

  predicate NeedsChange(space: Space, op: Operation) {
    var s := SummaryFor(space, op);
    op.summary != Some(s) && (op.summary.None? || Trim(space, op.summary.value) != s)
  }

  function Normalized(space: Space, op: Operation): Operation {
    if NeedsChange(space, op) then op.(summary := Some(SummaryFor(space, op))) else op
  }

  /** Neither the name of a method nor the ellipsis is trimmed away. */
  ghost predicate Visible(space: Space) {
    !space(ELLIPSIS) && forall verb :: !space(Name(verb)[0])
  }

  /** What the service accepts: a summary whose trimmed text is not empty and not too long. */
  predicate Summarized(space: Space, op: Operation) {
    op.summary.Some? && 0 < |Trim(space, op.summary.value)| <= MAX_SUMMARY
  }

  lemma WantedStarts(space: Space, op: Operation)
    requires Visible(space)
    ensures Wanted(space, op) != "" && !space(Wanted(space, op)[0])
    ensures Own(space, op) != "" ==> Wanted(space, op) == Own(space, op) && Trim(space, Own(space, op)) == Own(space, op)
  {
    if op.summary.Some? {
      TrimFacts(space, op.summary.value);
    }
    if op.operationId.Some? {
      TrimFacts(space, op.operationId.value);
    }
    assert (Name(op.verb) + " " + op.path)[0] == Name(op.verb)[0];
  }

  ghost predicate Blank(space: Space, s: string) {
    forall i :: 0 <= i < |s| ==> space(s[i])
  }

  /** Trimming takes blank ends off and nothing more. */
  lemma {:induction false} TrimExactly(space: Space, s: string) returns (front: string, back: string)
    ensures s == front + Trim(space, s) + back && Blank(space, front) && Blank(space, back)
    ensures Trim(space, s) != "" ==> !space(Trim(space, s)[0]) && !space(Trim(space, s)[|Trim(space, s)| - 1])
  {
    TrimFacts(space, s);
    front := FrontOf(space, s);
    back := BackOf(space, TrimStart(space, s));
    assert front + (Trim(space, s) + back) == front + Trim(space, s) + back;
  }

  lemma {:induction false} FrontOf(space: Space, s: string) returns (front: string)
    ensures s == front + TrimStart(space, s) && Blank(space, front)
  {
    front := "";
    if s != "" && space(s[0]) {
      var rest := FrontOf(space, s[1..]);
      front := [s[0]] + rest;
      assert s == [s[0]] + s[1..];
    }
  }

  lemma {:induction false} BackOf(space: Space, s: string) returns (back: string)
    ensures s == TrimEnd(space, s) + back && Blank(space, back)
  {
    back := "";
    if s != "" && space(s[|s| - 1]) {
      var rest := BackOf(space, s[..|s| - 1]);
      back := rest + [s[|s| - 1]];
      assert s == s[..|s| - 1] + [s[|s| - 1]];
    }
  }

  /**
   The summary is the operation's own, else its id, else its method and path, the first two trimmed and
   skipped when blank; beyond 200 characters it is cut to 199 and an ellipsis.
   */
  lemma SummaryExactly(space: Space, op: Operation)
    ensures var own := if op.summary.Some? then Trim(space, op.summary.value) else "";
            var id := if op.operationId.Some? then Trim(space, op.operationId.value) else "";
            var wanted := if own != "" then own else if id != "" then id else Name(op.verb) + " " + op.path;
            var s := SummaryFor(space, op);
            && (|wanted| <= 200 ==> s == wanted)
            && (|wanted| > 200 ==> |s| == 200 && s[..199] == wanted[..199] && s[199] == 0x2026 as char)
    ensures Name(Get) == "GET" && Name(Put) == "PUT" && Name(Post) == "POST" && Name(Delete) == "DELETE"
    ensures Name(Options) == "OPTIONS" && Name(Head) == "HEAD" && Name(Patch) == "PATCH" && Name(Trace) == "TRACE"
  {
  }

  lemma SummaryIsAcceptable(space: Space, op: Operation)
    requires Visible(space)
    ensures var s := SummaryFor(space, op);
            && 0 < |Trim(space, s)| <= |s| <= MAX_SUMMARY
            && (0 < |Own(space, op)| <= MAX_SUMMARY <==> s == Own(space, op))
            && (|Wanted(space, op)| > MAX_SUMMARY ==> Trim(space, s) == s)
            && (s == Wanted(space, op) || |s| == MAX_SUMMARY)
  {
    hide Trim, Wanted, Own;
    WantedStarts(space, op);
    var s := SummaryFor(space, op);
    assert s[0] == Wanted(space, op)[0];
    TrimFacts(space, s);
  }

  /** Normalizing leaves an acceptable summary, changes nothing but the summary, and changes an acceptable one not at all. */
  lemma NormalizedIsAcceptable(space: Space, op: Operation)
    requires Visible(space)
    ensures Summarized(space, Normalized(space, op))
    ensures Normalized(space, op).(summary := op.summary) == op
    ensures Normalized(space, op) == op <==> Summarized(space, op)
    ensures Normalized(space, Normalized(space, op)) == Normalized(space, op)
  {
    hide Trim, SummaryFor;
    SummaryIsAcceptable(space, op);
    var next := Normalized(space, op);
    assert Own(space, next) == Trim(space, next.summary.value);
    SummaryIsAcceptable(space, next);
  }

  // ---------- Documents ----------

  datatype Marker = Marker(repo: string, rawBranch: string, sanitizedBranch: string, role: string, headSha: string,
                           createdAt: string, lastSyncedAt: string, others: string)

  /** The reserved member of a document; one without the five texts that are read is no marker. */
  datatype Field = NoField | Unreadable(text: string) | Stamp(marker: Marker)

  /** `rest` is everything else, in order; an absent reserved member counts as the last one. */
  datatype Document = Document(hasPaths: bool, operations: seq<Operation>, field: Field, rest: string)

  datatype Parsed = NotAMapping | Mapping(doc: Document)

  /** How a document is printed: JSON, or YAML as the normalizer or as the stamp prints it. */
  datatype Style = JsonText | WideYaml | PlainYaml

  datatype Host = Host(load: string -> Option<Parsed>, print_: (Style, Document) -> string, isJson: string -> bool,
                       sanitize: string -> string, space: Space)

  function NormalizeAll(space: Space, ops: seq<Operation>): (r: seq<Operation>)
    ensures |r| == |ops| && forall i :: 0 <= i < |ops| ==> r[i] == Normalized(space, ops[i])
  {
    seq(|ops|, i requires 0 <= i < |ops| => Normalized(space, ops[i]))
  }

  /** One pass over the operations is enough, and leaves only acceptable summaries. */
  lemma AllAreAcceptable(space: Space, ops: seq<Operation>)
    requires Visible(space)
    ensures NormalizeAll(space, NormalizeAll(space, ops)) == NormalizeAll(space, ops)
    ensures forall op :: op in NormalizeAll(space, ops) ==> Summarized(space, op)
  {
    hide Normalized, Summarized;
    forall i | 0 <= i < |ops|
      ensures Normalized(space, Normalized(space, ops[i])) == Normalized(space, ops[i]) && Summarized(space, Normalized(space, ops[i]))
    {
      NormalizedIsAcceptable(space, ops[i]);
    }
  }

  /** A document that a run makes of another one: summaries normalized or not, the old marker or one that it builds. */
  predicate Derived(host: Host, base: Document, doc: Document) {
    && doc.hasPaths == base.hasPaths && doc.rest == base.rest
    && (doc.operations == base.operations || doc.operations == NormalizeAll(host.space, base.operations))
    && (doc.field == base.field || (doc.field.Stamp? && doc.field.marker.others == ""))
  }

  predicate InFormat(host: Host, text: string, style: Style) {
    host.isJson(text) <==> style.JsonText?
  }

  ghost predicate ReadsBack(host: Host, style: Style, doc: Document) {
    var printed := host.print_(style, doc);
    printed != "" && host.load(printed) == Some(Mapping(doc)) && InFormat(host, printed, style)
  }

  /** What a run makes of a text's document, printed in the format of that text, reads back. */
  ghost predicate Reads(host: Host) {
    forall text, base, style, doc ::
      host.load(text) == Some(Mapping(base)) && Derived(host, base, doc) && InFormat(host, text, style) ==> ReadsBack(host, style, doc)
  }

  lemma Prints(host: Host, text: string, base: Document, style: Style, doc: Document)
    requires Reads(host) && host.load(text) == Some(Mapping(base)) && Derived(host, base, doc) && InFormat(host, text, style)
    ensures ReadsBack(host, style, doc)
  {
  }

  function Normalize(host: Host, raw: string): string {
    match host.load(raw)
    case Some(Mapping(doc)) =>
      var ops := NormalizeAll(host.space, doc.operations);
      if !doc.hasPaths || ops == doc.operations then raw
      else host.print_(if host.isJson(raw) then JsonText else WideYaml, doc.(operations := ops))
    case _ => raw
  }

  lemma ChangeShows(space: Space, op: Operation)
    ensures NeedsChange(space, op) <==> Normalized(space, op) != op
  {
  }

  method NormalizeOperations(space: Space, operations: seq<Operation>) returns (ops: seq<Operation>, changed: bool)
    ensures ops == NormalizeAll(space, operations)
    ensures changed <==> ops != operations
  {
    hide SummaryFor, Trim, NeedsChange, NormalizeAll;
    ops, changed := operations, false;
    for i := 0 to |operations|
      invariant |ops| == |operations|
      invariant forall j :: 0 <= j < i ==> ops[j] == Normalized(space, operations[j])
      invariant forall j :: i <= j < |operations| ==> ops[j] == operations[j]
      invariant changed <==> ops != operations
    {
      ChangeShows(space, operations[i]);
      if NeedsChange(space, ops[i]) {
        ops := ops[i := ops[i].(summary := Some(SummaryFor(space, ops[i])))];
        changed := true;
        assert ops[i] != operations[i];
      }
    }
  }

  method NormalizeSpecDocument(host: Host, raw: string) returns (text: string)
    ensures text == Normalize(host, raw)
  {
    var parsed := host.load(raw);
    if parsed.None? || parsed.value.NotAMapping? || !parsed.value.doc.hasPaths {
      return raw;
    }
    var ops, changed := NormalizeOperations(host.space, parsed.value.doc.operations);
    if !changed {
      return raw;
    }
    text := host.print_(if host.isJson(raw) then JsonText else WideYaml, parsed.value.doc.(operations := ops));
  }

  /** One pass is enough, and after it every operation is acceptable. */
  lemma NormalizeIsStable(host: Host, raw: string)
    requires Reads(host) && Visible(host.space)
    ensures Normalize(host, Normalize(host, raw)) == Normalize(host, raw)
    ensures match host.load(Normalize(host, raw))
            case Some(Mapping(doc)) => doc.hasPaths ==> forall op :: op in doc.operations ==> Summarized(host.space, op)
            case _ => true
  {
    hide NormalizeAll, Summarized;
    match host.load(raw)
    case Some(Mapping(doc)) =>
      var ops := NormalizeAll(host.space, doc.operations);
      AllAreAcceptable(host.space, doc.operations);
      if doc.hasPaths && ops != doc.operations {
        Prints(host, raw, doc, if host.isJson(raw) then JsonText else WideYaml, doc.(operations := ops));
      }
    case _ =>
  }

  // ---------- The branch stamp ----------

  /** `tier` is preview or channel for stamped runs. */
  datatype Decision = Decision(tier: string, headBranch: string, headSha: string)

  predicate Stamps(decision: Decision, repo: Option<string>) {
    (decision.tier == "preview" || decision.tier == "channel") && decision.headBranch != "" && repo.Some? && repo.value != ""
  }

  function Extract(host: Host, content: Option<string>): Option<Marker> {
    if content.None? || content.value == "" then None
    else
      match host.load(content.value)
      case Some(Mapping(doc)) => if doc.field.Stamp? then Some(doc.field.marker) else None
      case _ => None
  }

  predicate SameGeneration(prior: Option<Marker>, decision: Decision, repo: string) {
    prior.Some? && prior.value.repo == repo && prior.value.rawBranch == decision.headBranch && prior.value.role == decision.tier
  }

  function Build(host: Host, decision: Decision, repo: string, createdAt: string, lastSyncedAt: string): Marker {
    Marker(repo, decision.headBranch, host.sanitize(decision.headBranch), decision.tier, decision.headSha, createdAt, lastSyncedAt, "")
  }

  function StampStyle(host: Host, content: string): Style {
    if host.isJson(content) then JsonText else PlainYaml
  }

  function RenderStamp(host: Host, content: string, marker: Marker): Option<string> {
    match host.load(content)
    case Some(Mapping(doc)) => Some(host.print_(StampStyle(host, content), doc.(field := Stamp(marker))))
    case _ => None
  }

  /** A marker that a run builds reads back. */
  lemma StampReads(host: Host, content: string, marker: Marker)
    requires Reads(host) && host.load(content).Some? && host.load(content).value.Mapping? && marker.others == ""
    ensures var doc := host.load(content).value.doc.(field := Stamp(marker));
            && RenderStamp(host, content, marker) == Some(host.print_(StampStyle(host, content), doc))
            && ReadsBack(host, StampStyle(host, content), doc)
            && Extract(host, RenderStamp(host, content, marker)) == Some(marker)
  {
    var base := host.load(content).value.doc;
    Prints(host, content, base, StampStyle(host, content), base.(field := Stamp(marker)));
  }

  function Embed(host: Host, content: string, decision: Decision, repo: Option<string>, previous: Option<string>, now: string): string {
    if !Stamps(decision, repo) then content
    else
      var prior := Extract(host, previous);
      var same := SameGeneration(prior, decision, repo.value);
      var createdAt := if same then prior.value.createdAt else now;
      if same && RenderStamp(host, content, Build(host, decision, repo.value, createdAt, prior.value.lastSyncedAt)) == previous
      then previous.value
      else
        match RenderStamp(host, content, Build(host, decision, repo.value, createdAt, now))
        case Some(text) => text
        case None => content
  }

  /** A marker that a run of the same repository, branch and tier has left. */
  predicate OfThisBranch(prior: Option<Marker>, decision: Decision, repo: string) {
    prior.Some? && (prior.value.repo, prior.value.rawBranch, prior.value.role) == (repo, decision.headBranch, decision.tier)
  }

  /** What a marker says, who is stamped, and in which style. */
  lemma StampExactly(host: Host, content: string, decision: Decision, repo: Option<string>, createdAt: string, lastSyncedAt: string)
    ensures Stamps(decision, repo) <==>
              decision.tier in ["preview", "channel"] && decision.headBranch != "" && repo.Some? && repo.value != ""
    ensures repo.Some? ==>
              var m := Build(host, decision, repo.value, createdAt, lastSyncedAt);
              && m.repo == repo.value && m.rawBranch == decision.headBranch && m.role == decision.tier && m.headSha == decision.headSha
              && m.sanitizedBranch == host.sanitize(decision.headBranch)
              && m.createdAt == createdAt && m.lastSyncedAt == lastSyncedAt && m.others == ""
    ensures StampStyle(host, content) == if host.isJson(content) then JsonText else PlainYaml
  {
  }

  /** What a stamped run stores: the document with a marker of this generation. */
  lemma EmbedStores(host: Host, content: string, decision: Decision, repo: string, previous: Option<string>, now: string)
    requires Reads(host) && Stamps(decision, Some(repo)) && host.load(content).Some? && host.load(content).value.Mapping?
    ensures var prior := Extract(host, previous);
            var text := Embed(host, content, decision, Some(repo), previous, now);
            exists createdAt, lastSyncedAt ::
              && RenderStamp(host, content, Build(host, decision, repo, createdAt, lastSyncedAt)) == Some(text)
              && Extract(host, Some(text)) == Some(Build(host, decision, repo, createdAt, lastSyncedAt))
              && createdAt == (if OfThisBranch(prior, decision, repo) then prior.value.createdAt else now)
              && (lastSyncedAt == now || (OfThisBranch(prior, decision, repo) && lastSyncedAt == prior.value.lastSyncedAt))
  {
    var prior := Extract(host, previous);
    var same := SameGeneration(prior, decision, repo);
    var createdAt := if same then prior.value.createdAt else now;
    var lastSyncedAt :=
      if same && RenderStamp(host, content, Build(host, decision, repo, createdAt, prior.value.lastSyncedAt)) == previous
      then prior.value.lastSyncedAt else now;
    var marker := Build(host, decision, repo, createdAt, lastSyncedAt);
    StampReads(host, content, marker);
  }

  /** A rerun on the same content, branch and head gives the stored text again, whatever the clock says. */
  lemma UnchangedRerun(host: Host, content: string, decision: Decision, repo: Option<string>, previous: Option<string>, first: string, second: string)
    requires Reads(host)
    ensures var stored := Embed(host, content, decision, repo, previous, first);
            Embed(host, content, decision, repo, Some(stored), second) == stored
  {
    if Stamps(decision, repo) && host.load(content).Some? && host.load(content).value.Mapping? {
      EmbedStores(host, content, decision, repo.value, previous, first);
    }
  }

  /**
   Against a stored text that a stamp printed, a run stores the same text, and so uploads nothing, exactly
   when the document, its format, the branch and the head are the same.
   */
  lemma UploadIsSkippedExactly(host: Host, content: string, decision: Decision, repo: string, stored: Document, style: Style, prior: Marker, now: string)
    requires Reads(host) && Stamps(decision, Some(repo)) && host.load(content).Some? && host.load(content).value.Mapping?
    requires ReadsBack(host, style, stored) && stored.field == Stamp(prior) && !style.WideYaml?
    ensures Embed(host, content, decision, Some(repo), Some(host.print_(style, stored)), now) == host.print_(style, stored)
            <==> && (if host.isJson(content) then JsonText else PlainYaml) == style
                 && host.load(content).value.doc.(field := stored.field) == stored
                 && prior == Build(host, decision, repo, prior.createdAt, prior.lastSyncedAt)
  {
    var text := host.print_(style, stored);
    var doc := host.load(content).value.doc;
    assert Extract(host, Some(text)) == Some(prior);
    forall createdAt, lastSyncedAt
      ensures var marker := Build(host, decision, repo, createdAt, lastSyncedAt);
              RenderStamp(host, content, marker) == Some(text) <==> StampStyle(host, content) == style && doc.(field := Stamp(marker)) == stored
    {
      StampReads(host, content, Build(host, decision, repo, createdAt, lastSyncedAt));
    }
  }

  /** One refresh of a branch: new content and head, at some time. */
  datatype Refresh = Refresh(content: string, headSha: string, now: string)

  /** The stored text after a run of refreshes of one branch. */
  function Refreshed(host: Host, tier: string, branch: string, repo: string, stored: string, refreshes: seq<Refresh>): string {
    if refreshes == [] then stored
    else
      var n := |refreshes| - 1;
      var before := Refreshed(host, tier, branch, repo, stored, refreshes[..n]);
      Embed(host, refreshes[n].content, Decision(tier, branch, refreshes[n].headSha), Some(repo), Some(before), refreshes[n].now)
  }

  /** The time of creation is that of the first run, however often the branch is refreshed. */
  lemma {:induction false} CreatedAtIsKept(host: Host, tier: string, branch: string, repo: string, stored: string, refreshes: seq<Refresh>)
    requires Reads(host) && Stamps(Decision(tier, branch, ""), Some(repo))
    requires SameGeneration(Extract(host, Some(stored)), Decision(tier, branch, ""), repo)
    requires forall r :: r in refreshes ==> host.load(r.content).Some? && host.load(r.content).value.Mapping?
    ensures var marker := Extract(host, Some(Refreshed(host, tier, branch, repo, stored, refreshes)));
            && OfThisBranch(marker, Decision(tier, branch, ""), repo)
            && marker.value.createdAt == Extract(host, Some(stored)).value.createdAt
  {
    if refreshes != [] {
      var n := |refreshes| - 1;
      var before := Refreshed(host, tier, branch, repo, stored, refreshes[..n]);
      CreatedAtIsKept(host, tier, branch, repo, stored, refreshes[..n]);
      assert refreshes[n] in refreshes;
      EmbedStores(host, refreshes[n].content, Decision(tier, branch, refreshes[n].headSha), repo, Some(before), refreshes[n].now);
    }
  }

  /** A stamped text needs no normalizing when the text it was made from needed none. */
  lemma StampedIsNormal(host: Host, content: string, decision: Decision, repo: Option<string>, previous: Option<string>, now: string)
    requires Reads(host) && Normalize(host, content) == content && Visible(host.space)
    ensures var stored := Embed(host, content, decision, repo, previous, now);
            Normalize(host, stored) == stored
  {
    hide NormalizeAll;
    if Stamps(decision, repo) && host.load(content).Some? && host.load(content).value.Mapping? {
      EmbedStores(host, content, decision, repo.value, previous, now);
      var createdAt, lastSyncedAt :|
        RenderStamp(host, content, Build(host, decision, repo.value, createdAt, lastSyncedAt)) == Some(Embed(host, content, decision, repo, previous, now));
      StampReads(host, content, Build(host, decision, repo.value, createdAt, lastSyncedAt));
      var doc := host.load(content).value.doc;
      var ops := NormalizeAll(host.space, doc.operations);
      if doc.hasPaths && ops != doc.operations {
        Prints(host, content, doc, if host.isJson(content) then JsonText else WideYaml, doc.(operations := ops));
      }
    }
  }

  /** The second run of an unchanged source, whatever the clocks, stamps exactly the text it reads back and normalizes. */
  lemma SecondRunUploadsNothing(host: Host, source: string, decision: Decision, repo: Option<string>, previous: Option<string>, first: string, second: string)
    requires Reads(host) && Visible(host.space)
    ensures var content := Normalize(host, source);
            var stored := Embed(host, content, decision, repo, previous, first);
            Embed(host, content, decision, repo, Some(Normalize(host, stored)), second) == Normalize(host, stored)
  {
    NormalizeIsStable(host, source);
    var content := Normalize(host, source);
    StampedIsNormal(host, content, decision, repo, previous, first);
    UnchangedRerun(host, content, decision, repo, previous, first, second);
  }

  // ---------- A host that reads what it prints ----------

  const UNTITLED := Operation(Get, "/", None, None, "")
  const TITLED := UNTITLED.(summary := Some("GET /"))

  predicate InSample(doc: Document) {
    && doc.hasPaths && doc.rest == "" && doc.operations in [[UNTITLED], [TITLED]]
    && (doc.field.NoField? || (doc.field.Stamp? && doc.field.marker.others == ""))
  }

  function Encode(s: string): string {
    if s == "" then "." else ['+', s[0]] + Encode(s[1..])
  }

  lemma {:induction false} EncodeIsInjective(s: string, s': string, t: string, t': string)
    requires Encode(s) + t == Encode(s') + t'
    ensures s == s' && t == t'
  {
    assert (Encode(s) + t)[0] == Encode(s)[0] && (Encode(s') + t')[0] == Encode(s')[0];
    if s == "" {
      assert (Encode(s) + t)[1..] == t && (Encode(s') + t')[1..] == t';
    } else {
      assert (Encode(s) + t)[1] == s[0] && (Encode(s') + t')[1] == s'[0];
      assert (Encode(s) + t)[2..] == Encode(s[1..]) + t && (Encode(s') + t')[2..] == Encode(s'[1..]) + t';
      EncodeIsInjective(s[1..], s'[1..], t, t');
    }
  }

  function EncodeAll(texts: seq<string>): string {
    if texts == [] then "" else Encode(texts[0]) + EncodeAll(texts[1..])
  }

  lemma {:induction false} EncodeAllIsInjective(a: seq<string>, b: seq<string>)
    requires |a| == |b| && EncodeAll(a) == EncodeAll(b)
    ensures a == b
  {
    if a != [] {
      EncodeIsInjective(a[0], b[0], EncodeAll(a[1..]), EncodeAll(b[1..]));
      EncodeAllIsInjective(a[1..], b[1..]);
      assert a == [a[0]] + a[1..] && b == [b[0]] + b[1..];
    }
  }

  function Texts(m: Marker): seq<string> {
    [m.repo, m.rawBranch, m.sanitizedBranch, m.role, m.headSha, m.createdAt, m.lastSyncedAt]
  }

  function SamplePrint(style: Style, doc: Document): string {
    var tag := match style case JsonText => '{' case WideYaml => 'w' case PlainYaml => 'p';
    [tag, if doc.operations == [TITLED] then 't' else 'u', if doc.field.Stamp? then 's' else 'n']
    + if doc.field.Stamp? then EncodeAll(Texts(doc.field.marker)) else ""
  }

  lemma SamplePrintIsInjective(style: Style, doc: Document, style': Style, doc': Document)
    requires InSample(doc) && InSample(doc') && SamplePrint(style, doc) == SamplePrint(style', doc')
    ensures style == style' && doc == doc'
  {
    var text, text' := SamplePrint(style, doc), SamplePrint(style', doc');
    assert text[0] == text'[0] && text[1] == text'[1] && text[2] == text'[2];
    if doc.field.Stamp? {
      assert text[3..] == EncodeAll(Texts(doc.field.marker)) && text'[3..] == EncodeAll(Texts(doc'.field.marker));
      EncodeAllIsInjective(Texts(doc.field.marker), Texts(doc'.field.marker));
      assert Texts(doc.field.marker)[0] == Texts(doc'.field.marker)[0];
    }
  }

  ghost predicate Printed(text: string, style: Style, doc: Document) {
    InSample(doc) && SamplePrint(style, doc) == text
  }

  ghost function SampleLoad(text: string): Option<Parsed> {
    if exists style, doc :: Printed(text, style, doc) then
      var style, doc :| Printed(text, style, doc);
      Some(Mapping(doc))
    else None
  }

  ghost function Sample(): Host {
    Host(SampleLoad, SamplePrint, text => text != "" && text[0] == '{', text => text, c => c == ' ')
  }

  lemma TitledIsNormal()
    ensures NormalizeAll(Sample().space, [UNTITLED]) == [TITLED] && NormalizeAll(Sample().space, [TITLED]) == [TITLED]
  {
    var space := Sample().space;
    assert Wanted(space, UNTITLED) == "GET /";
    assert Normalized(space, UNTITLED) == TITLED;
    TrimFacts(space, "GET /");
    assert Normalized(space, TITLED) == TITLED;
  }

  lemma SampleReadsBack(style: Style, doc: Document)
    requires InSample(doc)
    ensures ReadsBack(Sample(), style, doc)
  {
    var text := SamplePrint(style, doc);
    assert Printed(text, style, doc);
    forall style', doc' | Printed(text, style', doc') ensures style' == style && doc' == doc {
      SamplePrintIsInjective(style, doc, style', doc');
    }
  }

  lemma DerivedInSample(text: string, base: Document, doc: Document)
    requires SampleLoad(text) == Some(Mapping(base)) && Derived(Sample(), base, doc)
    ensures InSample(doc)
  {
    hide NormalizeAll;
    TitledIsNormal();
    assert exists style :: Printed(text, style, base);
  }

  lemma SampleNeedsNormalizing() returns (raw: string)
    ensures raw != "" && Normalize(Sample(), raw) != raw
  {
    hide NormalizeAll;
    var doc := Document(true, [UNTITLED], NoField, "");
    raw := SamplePrint(JsonText, doc);
    TitledIsNormal();
    SampleReadsBack(JsonText, doc);
    assert SamplePrint(JsonText, doc.(operations := [TITLED]))[1] != raw[1];
  }

  /** What the lemmas above require is not too much: a host that meets it reads a text that normalizing changes. */
  lemma SampleReads()
    ensures Reads(Sample()) && Visible(Sample().space)
    ensures exists raw :: raw != "" && Normalize(Sample(), raw) != raw
  {
    hide Derived, ReadsBack, Normalize;
    forall text, base, style, doc
      | SampleLoad(text) == Some(Mapping(base)) && Derived(Sample(), base, doc) && InFormat(Sample(), text, style)
      ensures ReadsBack(Sample(), style, doc)
    {
      DerivedInSample(text, base, doc);
      SampleReadsBack(style, doc);
    }
    var raw := SampleNeedsNormalizing();
  }
}
