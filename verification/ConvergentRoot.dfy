/** The collection root that concurrent runs agree on, found from a marker in the description. */
module ConvergentRoot {
  import opened Sequences
  import opened Wrappers
  import opened Text
  import opened Json
  import opened Receipt

  function Marker(): string { "x" + "-pm-onboarding" + ":" }

  // ---------- Brace matching ----------

  /** The place of the brace that brings the depth back to 0, or -1. */
  function CloseAt(text: string, index: nat, depth: int): (r: int)
    ensures r >= -1
    ensures r >= 0 ==> index <= r < |text| && text[r] == '}'
    decreases |text| - index
  {
    if index >= |text| then -1
    else if text[index] == '{' then CloseAt(text, index + 1, depth + 1)
    else if text[index] != '}' then CloseAt(text, index + 1, depth)
    else if depth - 1 == 0 then index
    else CloseAt(text, index + 1, depth - 1)
  }

  /** A marker with a repository and a role. */
  function MarkerOf(parsed: Option<Value>): Option<map<string, Value>> {
    match parsed
    case Some(Obj(fields)) =>
      if "repo" in fields && Truthy(fields["repo"]) && "role" in fields && Truthy(fields["role"]) then Some(fields) else None
    case _ => None
  }

  /** A marker is an object whose `repo` and `role` are there and not null, false, zero or empty. */
  lemma MarkerOfExactly(parsed: Option<Value>)
    ensures MarkerOf(parsed).Some? <==>
              && parsed.Some? && parsed.value.Obj? && "repo" in parsed.value.fields && "role" in parsed.value.fields
              && parsed.value.fields["repo"] !in [Null, Bool(false), Number(0.0), Str("")]
              && parsed.value.fields["role"] !in [Null, Bool(false), Number(0.0), Str("")]
    ensures MarkerOf(parsed).Some? ==> MarkerOf(parsed).value == parsed.value.fields
  {
  }

  /** The marker in the object text that starts at the first brace at or after `from`. */
  function MarkerAfter(parse: Parser, text: string, from: nat): Option<map<string, Value>> {
    var start := IndexOf(text, "{", from);
    if start < 0 then None
    else
      var end := CloseAt(text, start, 0);
      if end < 0 then None else MarkerOf(parse(text[start..end + 1]))
  }

  function LogicalMarker(parse: Parser, text: string): Option<map<string, Value>> {
    var markerIndex := IndexOf(text, Marker(), 0);
    if markerIndex < 0 then None else MarkerAfter(parse, text, markerIndex)
  }

  method LogicalAssetMarker(parse: Parser, text: string) returns (marker: Option<map<string, Value>>)
    ensures marker == LogicalMarker(parse, text)
  {
    hide IndexOf, MarkerOf, Marker;
    var markerIndex := IndexOf(text, Marker(), 0);
    var jsonStart := if markerIndex < 0 then -1 else IndexOf(text, "{", markerIndex);
    if jsonStart < 0 {
      return None;
    }
    var depth := 0;
    var index := jsonStart;
    while index < |text|
      invariant jsonStart <= index <= |text|
      invariant CloseAt(text, jsonStart, 0) == CloseAt(text, index, depth)
    {
      if text[index] == '{' {
        depth := depth + 1;
      } else if text[index] == '}' {
        depth := depth - 1;
        if depth == 0 {
          return MarkerOf(parse(text[jsonStart..index + 1]));
        }
      }
      index := index + 1;
    }
    marker := None;
  }

  // ---------- The scan seen from a part of the text ----------

  lemma {:induction false} CloseShifts(front: string, text: string, index: nat, depth: int)
    ensures var r := CloseAt(text, index, depth);
            CloseAt(front + text, |front| + index, depth) == if r < 0 then -1 else |front| + r
    decreases |text| - index
  {
    var whole := front + text;
    if index < |text| {
      assert whole[|front| + index] == text[index];
      CloseShifts(front, text, index + 1, depth + 1);
      CloseShifts(front, text, index + 1, depth);
      CloseShifts(front, text, index + 1, depth - 1);
    }
  }

  /** A brace that closes in the first part closes there whatever follows; otherwise not before the end of that part. */
  lemma {:induction false} CloseExtends(text: string, rest: string, index: nat, depth: int)
    requires index <= |text|
    ensures var r, s := CloseAt(text, index, depth), CloseAt(text + rest, index, depth);
            if r >= 0 then s == r else s == -1 || s >= |text|
    decreases |text| - index
  {
    var whole := text + rest;
    if index < |text| {
      assert whole[index] == text[index];
      var next := if text[index] == '{' then depth + 1 else if text[index] != '}' then depth else depth - 1;
      CloseExtends(text, rest, index + 1, next);
    }
  }

  lemma MarkerShifts(parse: Parser, front: string, text: string, from: nat)
    ensures MarkerAfter(parse, front + text, |front| + from) == MarkerAfter(parse, text, from)
  {
    hide IndexOf, CloseAt;
    IndexShifts(front, text, "{", from);
    var start := IndexOf(text, "{", from);
    if start >= 0 {
      CloseShifts(front, text, start, 0);
      var end := CloseAt(text, start, 0);
      if end >= 0 {
        assert (front + text)[|front| + start..|front| + end + 1] == text[start..end + 1];
      }
    }
  }

  // ---------- A receipt behind a description ----------

  /** The words between a description and a receipt payload: the reserved key, with or without its last blank. */
  ghost predicate Introduces(mid: string) {
    && |mid| > 15 && mid[0] == 'x' && mid[15] != ':'
    && Avoids(mid[1..], 'x') && Avoids(mid, '{') && Avoids(mid, '\n')
  }

  lemma MarkerShape()
    ensures |Marker()| == 16 && Marker()[0] == 'x' && Marker()[15] == ':' && '\n' !in Marker()
  {
  }

  lemma NoMarkerInside(mid: string, payload: string, at: nat)
    requires Introduces(mid) && at < |mid|
    ensures !Occurs(mid + payload, Marker(), at)
  {
    MarkerShape();
    assert (mid + payload)[at] == mid[at] && (mid + payload)[15] == mid[15];
    assert at > 0 ==> mid[1..][at - 1] == mid[at];
    if Occurs(mid + payload, Marker(), at) {
      MarkerMeans(mid + payload, at);
    }
  }

  lemma MarkerMeans(text: string, at: nat)
    requires Occurs(text, Marker(), at)
    ensures at + 15 < |text| && text[at] == 'x' && text[at + 15] == ':'
  {
    CharAt(text, Marker(), at, 0);
    CharAt(text, Marker(), at, 15);
  }

  lemma MarkerSkips(parse: Parser, front: string, text: string, from: nat)
    requires from <= |front| && forall i :: from <= i < |front| ==> front[i] != '{'
    ensures MarkerAfter(parse, front + text, from) == MarkerAfter(parse, text, 0)
  {
    hide IndexOf, CloseAt;
    forall i | from <= i < |front| ensures !Occurs(front + text, "{", i) {
      if Occurs(front + text, "{", i) {
        CharAt(front + text, "{", i, 0);
      }
    }
    SkipFront(front, text, "{", from);
    MarkerShifts(parse, front, text, 0);
    IndexShifts(front, text, "{", 0);
  }

  /** A front without the marker and without a brace leaves the marker of the rest. */
  lemma FrontWithoutMarker(parse: Parser, front: string, text: string)
    requires forall i :: 0 <= i < |front| ==> !Occurs(front + text, Marker(), i)
    ensures LogicalMarker(parse, front + text) == LogicalMarker(parse, text)
  {
    hide IndexOf, MarkerAfter;
    MarkerShape();
    SkipFront(front, text, Marker(), 0);
    var m := IndexOf(text, Marker(), 0);
    if m >= 0 {
      MarkerShifts(parse, front, text, m);
    }
  }

  /** The braces of a receipt never hold a marker of their own from the first brace on. */
  lemma ReceiptIsNoMarker(parse: Parser, payload: string)
    requires Delimits(parse) && parse(payload).Some? && parse(payload).value.Obj? && MarkerOf(parse(payload)).None?
    ensures MarkerAfter(parse, payload, 0).None?
  {
    var start := IndexOf(payload, "{", 0);
    if start >= 0 {
      var end := CloseAt(payload, start, 0);
      if end >= 0 && parse(payload[start..end + 1]).Some? {
        assert parse(payload[start..end + 1]) == parse(payload);
      }
    }
  }

  /** An object that does not close in the description does not close before the receipt, and then it does not parse. */
  lemma BraceInBase(parse: Parser, base: string, mid: string, payload: string, m: nat)
    requires RejectsLines(parse) && Introduces(mid) && IndexOf(base, "{", m) >= 0
    ensures MarkerAfter(parse, base + (['\n'] + mid + payload), m) == MarkerAfter(parse, base, m)
  {
    hide CloseAt, IndexOf, MarkerAfter, MarkerOf;
    var rest := ['\n'] + mid + payload;
    var text := base + rest;
    var start := IndexOf(base, "{", m);
    SameFirst(base, rest, "{", m);
    CloseExtends(base, rest, start, 0);
    var end, end' := CloseAt(base, start, 0), CloseAt(text, start, 0);
    MarkerAfterIs(parse, base, m, start, end);
    MarkerAfterIs(parse, text, m, start, end');
    if end >= 0 {
      assert text[start..end + 1] == base[start..end + 1];
    } else if end' >= 0 {
      assert text[|base|] == '\n' && text[|base| + 1] == 'x';
      LineInSlice(text, start, |base|, end' + 1);
      NoneIsNoMarker(parse, text[start..end' + 1]);
    }
  }

  lemma MarkerAfterIs(parse: Parser, text: string, from: nat, start: nat, end: int)
    requires IndexOf(text, "{", from) == start && CloseAt(text, start, 0) == end
    ensures MarkerAfter(parse, text, from) == if end < 0 then None else MarkerOf(parse(text[start..end + 1]))
  {
  }

  lemma NoneIsNoMarker(parse: Parser, text: string)
    requires RejectsLines(parse) && Contains(text, "\nx")
    ensures MarkerOf(parse(text)).None?
  {
  }

  lemma LineInSlice(text: string, from: nat, at: nat, to: nat)
    requires from <= at && at + 2 <= to <= |text| && text[at] == '\n' && text[at + 1] == 'x'
    ensures Contains(text[from..to], "\nx")
  {
    assert text[from..to][at - from..at - from + 2] == "\nx";
    assert Occurs(text[from..to], "\nx", at - from);
  }

  lemma NoBraceInBase(parse: Parser, base: string, mid: string, payload: string, m: nat)
    requires Introduces(mid) && m <= |base| && IndexOf(base, "{", m) < 0
    ensures MarkerAfter(parse, base + (['\n'] + mid + payload), m) == MarkerAfter(parse, payload, 0)
  {
    var front := base + ['\n'] + mid;
    assert front + payload == base + (['\n'] + mid + payload);
    forall i | m <= i < |front| ensures front[i] != '{' {
      if i < |base| {
        assert base[i..i + 1] == "{" ==> Occurs(base, "{", i);
        assert base[i..i + 1] == [base[i]];
      } else if i > |base| {
        assert front[i] == mid[i - |base| - 1];
      }
    }
    MarkerSkips(parse, front, payload, m);
  }

  /** A marker in the description decides, whatever receipt follows. */
  lemma MarkerInBase(parse: Parser, base: string, mid: string, payload: string)
    requires RejectsLines(parse) && Delimits(parse) && Introduces(mid) && Contains(base, Marker())
    requires parse(payload).Some? && parse(payload).value.Obj? && MarkerOf(parse(payload)).None?
    ensures LogicalMarker(parse, base + ['\n'] + mid + payload) == LogicalMarker(parse, base)
  {
    var rest := ['\n'] + mid + payload;
    assert base + ['\n'] + mid + payload == base + rest;
    var m := IndexOf(base, Marker(), 0);
    SameFirst(base, rest, Marker(), 0);
    if IndexOf(base, "{", m) >= 0 {
      BraceInBase(parse, base, mid, payload, m);
    } else {
      NoBraceInBase(parse, base, mid, payload, m);
      ReceiptIsNoMarker(parse, payload);
    }
  }

  lemma SameFirst(base: string, rest: string, pattern: string, from: nat)
    requires IndexOf(base, pattern, from) >= 0
    ensures IndexOf(base + rest, pattern, from) == IndexOf(base, pattern, from)
  {
    var r := IndexOf(base, pattern, from);
    forall i | from <= i <= r ensures Occurs(base + rest, pattern, i) <==> Occurs(base, pattern, i) {
      assert i + |pattern| <= |base|;
      assert (base + rest)[i..i + |pattern|] == base[i..i + |pattern|];
    }
    FirstIs(base + rest, pattern, from, r);
  }

  /** Without one, the receipt's own text decides. */
  lemma MarkerNotInBase(parse: Parser, base: string, mid: string, payload: string)
    requires Introduces(mid) && !Contains(base, Marker())
    ensures LogicalMarker(parse, base + ['\n'] + mid + payload) == LogicalMarker(parse, payload)
  {
    hide Marker, Introduces, Occurs, IndexOf, LogicalMarker;
    var front := base + ['\n'] + mid;
    forall i | 0 <= i < |front| ensures !Occurs(front + payload, Marker(), i) {
      NoMarkerInFront(base, mid, payload, i);
    }
    FrontWithoutMarker(parse, front, payload);
  }

  lemma NoMarkerInFront(base: string, mid: string, payload: string, at: nat)
    requires Introduces(mid) && !Contains(base, Marker()) && at < |base + ['\n'] + mid|
    ensures !Occurs(base + ['\n'] + mid + payload, Marker(), at)
  {
    hide Marker, Introduces, IndexOf;
    MarkerShape();
    assert base + ['\n'] + (mid + payload) == base + ['\n'] + mid + payload;
    if Occurs(base + ['\n'] + mid + payload, Marker(), at) {
      OccursBeside(base, '\n', mid + payload, Marker(), at);
      if at > |base| {
        NoMarkerInside(mid, payload, at - |base| - 1);
      }
    }
  }

  lemma MarkerNotInMid(parse: Parser, mid: string, payload: string)
    requires Introduces(mid)
    ensures LogicalMarker(parse, mid + payload) == LogicalMarker(parse, payload)
  {
    forall i | 0 <= i < |mid| ensures !Occurs(mid + payload, Marker(), i) {
      NoMarkerInside(mid, payload, i);
    }
    FrontWithoutMarker(parse, mid, payload);
  }

  // ---------- Receipts and roots ----------

  ghost predicate Facts(parse: Parser) {
    ReadsReceipts(parse) && RejectsLines(parse) && Delimits(parse)
  }

  lemma PrefixIntroduces()
    ensures Introduces(Prefix()) && Introduces(Key() + ":")
  {
    PrefixAvoids('x');
    PrefixAvoids('{');
    PrefixAvoids('\n');
    assert Prefix() == ['x'] + Prefix()[1..];
    Join(['x'], Prefix()[1..], '{');
    Join(['x'], Prefix()[1..], '\n');
    assert Prefix() == (Key() + ":") + " ";
    Join(Key() + ":", " ", '{');
    Join(Key() + ":", " ", '\n');
    assert Prefix()[1..] == (Key() + ":")[1..] + " ";
    Join((Key() + ":")[1..], " ", 'x');
    assert Prefix()[15] == '-' && (Key() + ":")[15] == '-';
  }

  lemma ReceiptHasNoMarker(payload: Option<Value>)
    requires payload.Some? && DigestOf(payload.value).Success?
    ensures MarkerOf(payload).None?
  {
    assert "repo" !in {"algorithm", "digest", "schemaVersion"};
  }

  /** Attaching a receipt never moves the marker: the rendered text has that of the stripped one. */
  lemma RenderKeepsMarker(parse: Parser, base: string, digest: string)
    requires Facts(parse) && IsDigest(digest)
    ensures LogicalMarker(parse, WithLine(base, digest)) == LogicalMarker(parse, base)
  {
    hide Key, LogicalMarker, IndexOf, Payload;
    var payload := Payload(digest);
    PrefixIntroduces();
    PayloadHasNoMarker(parse, digest);
    if base == "" {
      MarkerNotInMid(parse, Prefix(), payload);
      EmptyHasNoMarker(parse);
    } else {
      assert WithLine(base, digest) == base + ['\n'] + Prefix() + payload;
      if Contains(base, Marker()) {
        MarkerInBase(parse, base, Prefix(), payload);
      } else {
        MarkerNotInBase(parse, base, Prefix(), payload);
        AbsentMarker(parse, base);
      }
    }
  }

  lemma AbsentMarker(parse: Parser, text: string)
    requires !Contains(text, Marker())
    ensures LogicalMarker(parse, text).None?
  {
  }

  lemma EmptyHasNoMarker(parse: Parser)
    ensures LogicalMarker(parse, "").None?
  {
    assert !Occurs("", Marker(), IndexOf("", Marker(), 0));
  }

  lemma PayloadHasNoMarker(parse: Parser, digest: string)
    requires ReadsReceipts(parse) && IsDigest(digest)
    ensures LogicalMarker(parse, Payload(digest)).None?
    ensures parse(Payload(digest)).Some? && parse(Payload(digest)).value.Obj? && MarkerOf(parse(Payload(digest))).None?
  {
    PayloadAvoids(digest, 'x');
    MarkerShape();
    assert 'x' in Marker();
    AvoidsMeansAbsent(Payload(digest), 'x', Marker());
    ReceiptHasNoMarker(parse(Payload(digest)));
  }

  /**
   Stripping a receipt that some other program wrote keeps the marker exactly when the description has
   one of its own or the receipt's payload does not spell one.
   */
  lemma StripKeepsMarkerExactly(parse: Parser, text: string)
    requires Facts(parse) && ParseReceipt(parse, text).Success? && ParseReceipt(parse, text).value.Some?
    ensures var s := ReceiptSuffix(text).value.value;
            && Strip(parse, text) == Success(s.base)
            && (LogicalMarker(parse, text) == LogicalMarker(parse, s.base)
                <==> Contains(s.base, Marker()) || LogicalMarker(parse, s.payload).None?)
  {
    ReceiptParts(parse, text);
    EmptyHasNoMarker(parse);
    hide *;
    var s := ReceiptSuffix(text).value.value;
    SuffixShape(text);
    PrefixIntroduces();
    ReceiptHasNoMarker(parse(s.payload));
    if text == Prefix() + s.payload && s.base == "" {
      MarkerNotInMid(parse, Prefix(), s.payload);
      NoMarkerInEmpty();
    } else if s.base != "" {
      MarkerBefore(parse, s.base, Prefix(), s.payload);
    } else {
      assert text == s.base + ['\n'] + (Key() + ":") + s.payload;
      MarkerBefore(parse, s.base, Key() + ":", s.payload);
    }
  }

  lemma ReceiptParts(parse: Parser, text: string)
    requires Facts(parse) && ParseReceipt(parse, text).Success? && ParseReceipt(parse, text).value.Some?
    ensures ReceiptSuffix(text).Success? && ReceiptSuffix(text).value.Some?
    ensures var s := ReceiptSuffix(text).value.value;
            && Strip(parse, text) == Success(s.base)
            && parse(s.payload).Some? && parse(s.payload).value.Obj? && DigestOf(parse(s.payload).value).Success?
    ensures ReadsReceipts(parse) && RejectsLines(parse) && Delimits(parse)
  {
    hide ReceiptSuffix, Key, Contains;
  }

  lemma NoMarkerInEmpty()
    ensures !Contains("", Marker())
  {
    assert !Occurs("", Marker(), IndexOf("", Marker(), 0));
  }

  lemma MarkerBefore(parse: Parser, base: string, mid: string, payload: string)
    requires RejectsLines(parse) && Delimits(parse) && Introduces(mid)
    requires parse(payload).Some? && parse(payload).value.Obj? && MarkerOf(parse(payload)).None?
    ensures LogicalMarker(parse, base + ['\n'] + mid + payload) == LogicalMarker(parse, base)
            <==> Contains(base, Marker()) || LogicalMarker(parse, payload).None?
  {
    hide LogicalMarker, IndexOf;
    if Contains(base, Marker()) {
      MarkerInBase(parse, base, mid, payload);
    } else {
      MarkerNotInBase(parse, base, mid, payload);
      AbsentMarker(parse, base);
    }
  }

  // ---------- Receipts that move the root ----------

  const INNER := "{" + "\"repo\":\"r\"," + "\"role\":\"s\"" + "}"

  /** A receipt whose digest is given twice, the first time as an object that spells a marker. */
  function Forged(digest: string): string {
    "{\"digest\":{\"" + (Marker() + "\":" + INNER + ("}," + Members(digest) + "}"))
  }

  /** The parser keeps the last of two equal keys, so the forged text is a receipt, and stripping it moves the root. */
  lemma ForgedReceiptMovesRoot(parse: Parser, digest: string)
    requires IsDigest(digest) && ReadsReceipts(parse)
    requires parse(Forged(digest)) == parse(Payload(digest))
    requires parse(INNER) == Some(Obj(map["repo" := Str("r"), "role" := Str("s")]))
    ensures var text := Prefix() + Forged(digest);
            && ParseReceipt(parse, text) == Success(Some(digest)) && Strip(parse, text) == Success("")
            && LogicalMarker(parse, text).Some? && LogicalMarker(parse, "").None?
  {
    hide *;
    ForgedReads(parse, digest);
    ForgedHasMarker(parse, digest);
    EmptyHasNoMarker(parse);
  }

  lemma ForgedHasMarker(parse: Parser, digest: string)
    requires IsDigest(digest) && parse(INNER) == Some(Obj(map["repo" := Str("r"), "role" := Str("s")]))
    ensures LogicalMarker(parse, Prefix() + Forged(digest)).Some?
  {
    hide LogicalMarker, MarkerAfter, Members, Marker;
    PrefixIntroduces();
    MarkerNotInMid(parse, Prefix(), Forged(digest));
    InnerIsFound(parse, "}," + Members(digest) + "}");
    MarkerBehind(parse, "{\"digest\":{\"", "\":" + INNER + ("}," + Members(digest) + "}"));
    Regroup(Marker(), "\":", INNER, "}," + Members(digest) + "}");
  }

  lemma ForgedAvoids(digest: string, c: char)
    requires IsDigest(digest) && (c == '\n' || c == '\r')
    ensures Avoids(Forged(digest), c)
  {
    hide Members;
    MembersAvoid(digest, c);
    var tail := "}," + Members(digest) + "}";
    Join("},", Members(digest), c);
    Join("}," + Members(digest), "}", c);
    assert Avoids("{\"digest\":{\"", c) && Avoids(Marker() + "\":" + INNER, c);
    Join(Marker() + "\":" + INNER, tail, c);
    Join("{\"digest\":{\"", Marker() + "\":" + INNER + tail, c);
  }

  lemma ForgedReads(parse: Parser, digest: string)
    requires IsDigest(digest) && ReadsReceipts(parse) && parse(Forged(digest)) == parse(Payload(digest))
    ensures ParseReceipt(parse, Prefix() + Forged(digest)) == Success(Some(digest))
    ensures Strip(parse, Prefix() + Forged(digest)) == Success("")
  {
    var text := Prefix() + Forged(digest);
    ForgedAvoids(digest, '\n');
    ForgedAvoids(digest, '\r');
    AvoidsMeansAbsent(Forged(digest), '\n', "\n");
    AvoidsMeansAbsent(Forged(digest), '\r', "\r");
    hide Forged, Key, Payload;
    assert text[0..|Prefix()|] == Prefix() && text[|Prefix()|..] == Forged(digest);
    assert ReceiptSuffix(text) == Success(Some(Suffix("", Forged(digest))));
    NoKeyInEmpty();
  }

  lemma MarkerBehind(parse: Parser, head: string, rest: string)
    requires Avoids(head, 'x')
    ensures LogicalMarker(parse, head + (Marker() + rest)) == MarkerAfter(parse, Marker() + rest, 0)
  {
    var tail := Marker() + rest;
    forall i | 0 <= i < |head| ensures !Occurs(head + tail, Marker(), i) {
      assert (head + tail)[i] == head[i];
      if Occurs(head + tail, Marker(), i) {
        MarkerMeans(head + tail, i);
      }
    }
    FrontWithoutMarker(parse, head, tail);
    assert tail[0..|Marker()|] == Marker();
    FirstIs(tail, Marker(), 0, 0);
  }

  lemma InnerIsFound(parse: Parser, tail: string)
    requires MarkerOf(parse(INNER)).Some?
    ensures MarkerAfter(parse, Marker() + "\":" + INNER + tail, 0).Some?
  {
    var front := Marker() + "\":";
    assert front + INNER + tail == front + (INNER + tail);
    assert Avoids(front, '{');
    MarkerSkips(parse, front, INNER + tail, 0);
    var body := "\"repo\":\"r\"," + "\"role\":\"s\"";
    assert Avoids(body, '{') && Avoids(body, '}');
    FirstBrace(INNER + tail);
    BodyCloses(INNER + tail, 1, |INNER| - 1);
    assert (INNER + tail)[0..|INNER|] == INNER;
    MarkerAfterIs(parse, INNER + tail, 0, 0, |INNER| - 1);
  }

  lemma FirstBrace(text: string)
    requires text != "" && text[0] == '{'
    ensures IndexOf(text, "{", 0) == 0
  {
    assert text[0..1] == "{";
    assert Occurs(text, "{", 0);
  }

  lemma {:induction false} BodyCloses(text: string, first: nat, last: nat)
    requires first <= last < |text| && text[last] == '}' && forall i :: first <= i < last ==> text[i] != '{' && text[i] != '}'
    ensures CloseAt(text, first, 1) == last
    ensures first == 1 && text[0] == '{' ==> CloseAt(text, 0, 0) == last
    decreases last - first
  {
    if first < last {
      BodyCloses(text, first + 1, last);
    }
  }

  // ---------- A parser with these facts ----------

  function ReceiptOf(digest: string): Value {
    Obj(map["schemaVersion" := Number(1.0), "algorithm" := Str("sha256"), "digest" := Str(digest)])
  }

  ghost predicate Spells(text: string, digest: string) {
    IsDigest(digest) && (text == Payload(digest) || text == Forged(digest))
  }

  ghost function SampleParse(text: string): Option<Value> {
    if text == INNER then Some(Obj(map["repo" := Str("r"), "role" := Str("s")]))
    else if exists digest :: Spells(text, digest) then
      var digest :| Spells(text, digest);
      Some(ReceiptOf(digest))
    else None
  }

  function MembersFront(): string {
    "\"schemaVersion\"" + ":1,\"algorithm\":" + "\"sha256\"," + "\"digest\":\""
  }

  function PayloadFront(): string { "{" + MembersFront() }

  function ForgedFront(): string {
    "{\"digest\":{\"" + (Marker() + "\":" + INNER + ("}," + MembersFront()))
  }

  lemma FrontShape(front: string, digest: string)
    requires |front| > 2 && |digest| == 64
    ensures var text := front + digest + "\"}";
            && |text| == |front| + 66 && text[0] == front[0] && text[2] == front[2]
            && text[|front|..|front| + 64] == digest
  {
  }

  lemma Fronts(digest: string)
    ensures Payload(digest) == PayloadFront() + digest + "\"}" && PayloadFront()[0] == '{' && |PayloadFront()| > 2 && PayloadFront()[2] == 's'
    ensures Forged(digest) == ForgedFront() + digest + "\"}" && ForgedFront()[0] == '{' && |ForgedFront()| > 2 && ForgedFront()[2] == 'd'
  {
    assert "\"schemaVersion\""[1] == 's' && MembersFront()[1] == 's';
    FrontOfPayload(digest);
    FrontOfForged(digest);
  }

  lemma FrontOfPayload(digest: string)
    ensures Payload(digest) == PayloadFront() + digest + "\"}"
  {
    assert Members(digest) == MembersFront() + digest + "\"";
    Tail("{", MembersFront(), digest);
  }

  lemma FrontOfForged(digest: string)
    ensures Forged(digest) == ForgedFront() + digest + "\"}"
  {
    var m, i := MembersFront(), Marker() + "\":" + INNER;
    assert Members(digest) == m + digest + "\"";
    Tail("{\"digest\":{\"" + i + "},", m, digest);
    hide MembersFront, Members, Marker;
    assert ForgedFront() == "{\"digest\":{\"" + i + "}," + m;
    assert Forged(digest) == "{\"digest\":{\"" + i + "}," + (m + digest + "\"") + "}";
  }

  lemma Tail(a: string, m: string, digest: string)
    ensures a + (m + digest + "\"") + "}" == a + m + digest + "\"}"
  {
  }

  /** What the lemmas above require of a parser is not too much. */
  lemma {:induction false} SampleHasFacts()
    ensures Facts(SampleParse)
    ensures SampleParse(INNER) == Some(Obj(map["repo" := Str("r"), "role" := Str("s")]))
    ensures forall digest :: IsDigest(digest) ==> SampleParse(Forged(digest)) == SampleParse(Payload(digest))
  {
    forall text, digest | Spells(text, digest) ensures SampleParse(text) == Some(ReceiptOf(digest)) && !Contains(text, "\nx") {
      OneDigest(text, digest);
    }
    forall digest | IsDigest(digest)
      ensures SampleParse(Payload(digest)) == Some(ReceiptOf(digest)) && SampleParse(Forged(digest)) == Some(ReceiptOf(digest))
    {
      assert Spells(Payload(digest), digest) && Spells(Forged(digest), digest);
    }
    assert Avoids(INNER, '\n');
    AvoidsMeansAbsent(INNER, '\n', "\nx");
    forall text: string, from: nat, to: nat
      | from <= to <= |text| && SampleParse(text).Some? && IndexOf(text, "{", 0) == from && SampleParse(text[from..to]).Some?
      ensures text[from..to] == text
    {
      SampleDelimits(text, from, to);
    }
  }

  lemma OneDigest(text: string, digest: string)
    requires Spells(text, digest)
    ensures SampleParse(text) == Some(ReceiptOf(digest)) && !Contains(text, "\nx")
  {
    hide Payload, Forged, PayloadFront, ForgedFront;
    forall other | Spells(text, other) ensures other == digest && text != INNER {
      Fronts(digest);
      Fronts(other);
      FrontShape(PayloadFront(), digest);
      FrontShape(PayloadFront(), other);
      FrontShape(ForgedFront(), digest);
      FrontShape(ForgedFront(), other);
      assert INNER[2] == 'r';
    }
    PayloadAvoids(digest, '\n');
    ForgedAvoids(digest, '\n');
    AvoidsMeansAbsent(text, '\n', "\nx");
  }

  /** Texts of one kind are equally long, and texts of two kinds differ at the third character. */
  lemma SampleDelimits(text: string, from: nat, to: nat)
    requires from <= to <= |text| && SampleParse(text).Some? && IndexOf(text, "{", 0) == from && SampleParse(text[from..to]).Some?
    ensures text[from..to] == text
  {
    hide Payload, Forged, PayloadFront, ForgedFront, IndexOf;
    var part := text[from..to];
    Kinds(text);
    Kinds(part);
    FirstBrace(text);
    assert part[2] == text[2];
  }

  lemma Kinds(text: string)
    requires SampleParse(text).Some?
    ensures |text| > 2 && text[0] == '{'
    ensures text[2] in ['r', 's', 'd']
    ensures |text| == if text[2] == 'r' then |INNER| else if text[2] == 's' then |PayloadFront()| + 66 else |ForgedFront()| + 66
  {
    hide Payload, Forged, PayloadFront, ForgedFront;
    assert INNER[0] == '{' && INNER[2] == 'r';
    if text != INNER {
      var digest :| Spells(text, digest);
      Fronts(digest);
      FrontShape(PayloadFront(), digest);
      FrontShape(ForgedFront(), digest);
    }
  }
}
