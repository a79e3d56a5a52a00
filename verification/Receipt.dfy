/** The receipt line at the end of a collection description: printing, parsing and removing it. */
module Receipt {
  import opened Wrappers
  import opened Text
  import opened Json

  datatype Description = Missing | Written(text: string) | NotText

  datatype Error = NotFinalLine | NotAReceiptLine | MultipleKeys | NotJson | NotAnObject | WrongShape | BadDigest | NotAString

  function Key(): string { "x" + "-pm-onboarding" + "-content-receipt" }

  function Prefix(): string { Key() + ": " }

  function LinePrefix(): string { "\n" + Prefix() }

  datatype Suffix = Suffix(base: string, payload: string)

  /** An occurrence at 0 is taken for the start of the text, also when it begins with the line break. */
  function ReceiptSuffix(description: string): Result<Option<Suffix>, Error> {
    var ownLine := if StartsWith(description, Prefix()) then 0 else LastIndexOf(description, LinePrefix());
    if ownLine < 0 then Success(None)
    else
      var lineStart := if ownLine == 0 then 0 else ownLine + 1;
      var payload := description[lineStart + |Prefix()|..];
      if Contains(payload, "\n") || Contains(payload, "\r") then Failure(NotFinalLine)
      else Success(Some(Suffix(if ownLine == 0 then "" else description[..ownLine], payload)))
  }

  predicate IsDigest(s: string) {
    |s| == 64 && forall i :: 0 <= i < |s| ==> 'a' <= s[i] <= 'f' || '0' <= s[i] <= '9'
  }

  function DigestOf(v: Value): Result<string, Error> {
    if !v.Obj? then Failure(NotAnObject)
    else
      var f := v.fields;
      if f.Keys == {"algorithm", "digest", "schemaVersion"} && f["schemaVersion"] == Number(1.0) && f["algorithm"] == Str("sha256")
         && f["digest"].Str? && IsDigest(f["digest"].text)
      then Success(f["digest"].text)
      else Failure(WrongShape)
  }

  /** The digest of the receipt, None when there is no receipt. */
  function ParseReceipt(parse: Parser, description: string): Result<Option<string>, Error> {
    if description == "" then Success(None)
    else
      match ReceiptSuffix(description)
      case Failure(e) => Failure(e)
      case Success(None) => if Contains(description, Key()) then Failure(NotAReceiptLine) else Success(None)
      case Success(Some(suffix)) =>
        if Contains(suffix.base, Key()) then Failure(MultipleKeys)
        else
          match parse(suffix.payload)
          case None => Failure(NotJson)
          case Some(v) =>
            match DigestOf(v)
            case Failure(e) => Failure(e)
            case Success(digest) => Success(Some(digest))
  }

  function Strip(parse: Parser, description: string): Result<string, Error> {
    match ParseReceipt(parse, description)
    case Failure(e) => Failure(e)
    case Success(None) => Success(description)
    case Success(Some(_)) => Success(ReceiptSuffix(description).value.value.base)
  }

  function Members(digest: string): string {
    "\"schemaVersion\"" + ":1,\"algorithm\":" + "\"sha256\"," + "\"digest\":\"" + digest + "\""
  }

  /** `JSON.stringify` of the receipt. */
  function Payload(digest: string): string {
    "{" + Members(digest) + "}"
  }

  function Line(digest: string): string {
    Prefix() + Payload(digest)
  }

  function WithLine(base: string, digest: string): string {
    if base == "" then Line(digest) else base + ['\n'] + Line(digest)
  }

  function Render(parse: Parser, description: Description, digest: string): Result<string, Error> {
    if !IsDigest(digest) then Failure(BadDigest)
    else
      match description
      case NotText => Failure(NotAString)
      case Missing => Success(WithLine("", digest))
      case Written(text) =>
        match Strip(parse, text)
        case Failure(e) => Failure(e)
        case Success(base) => Success(WithLine(base, digest))
  }

  // ---------- Characters ----------

  predicate Avoids(s: string, c: char) {
    forall i :: 0 <= i < |s| ==> s[i] != c
  }

  lemma Join(a: string, b: string, c: char)
    ensures Avoids(a + b, c) <==> Avoids(a, c) && Avoids(b, c)
  {
    assert forall i :: 0 <= i < |a| ==> (a + b)[i] == a[i];
    assert forall i :: 0 <= i < |b| ==> (a + b)[|a| + i] == b[i];
  }

  predicate Delimiter(c: char) {
    c == '\n' || c == '\r' || c == '{' || c == '}' || c == 'x'
  }

  lemma JoinFour(a: string, b: string, c: string, d: string, x: char)
    requires Avoids(a, x) && Avoids(b, x) && Avoids(c, x) && Avoids(d, x)
    ensures Avoids(a + b + c + d, x)
  {
    Join(a, b, x);
    Join(a + b, c, x);
    Join(a + b + c, d, x);
  }

  lemma MembersAvoid(digest: string, c: char)
    requires IsDigest(digest) && Delimiter(c)
    ensures Avoids(Members(digest), c)
  {
    var s1, s2, s3, s4 := "\"schemaVersion\"", ":1,\"algorithm\":", "\"sha256\",", "\"digest\":\"";
    JoinFour(s1, s2, s3, s4, c);
    Join(s1 + s2 + s3 + s4, digest, c);
    Join(s1 + s2 + s3 + s4 + digest, "\"", c);
  }

  lemma PayloadAvoids(digest: string, c: char)
    requires IsDigest(digest) && (c == '\n' || c == '\r' || c == 'x')
    ensures Avoids(Payload(digest), c)
  {
    MembersAvoid(digest, c);
    Join("{", Members(digest), c);
    Join("{" + Members(digest), "}", c);
  }

  /** After its first character the prefix has no x, and it never has a brace or a line break. */
  lemma PrefixAvoids(c: char)
    requires Delimiter(c)
    ensures Avoids(Prefix()[1..], c) && Prefix()[0] == 'x' && |Prefix()| == 33
  {
    var s1, s2 := "-pm-onboarding", "-content-receipt";
    JoinFour(s1, s2, ": ", "", c);
    assert Prefix() == "x" + (s1 + s2 + ": ");
  }

  lemma ContainsMeansChar(s: string, c: char, pattern: string)
    requires Contains(s, pattern) && c in pattern
    ensures !Avoids(s, c)
  {
    var at := IndexOf(s, pattern, 0);
    var k :| 0 <= k < |pattern| && pattern[k] == c;
    CharAt(s, pattern, at, k);
  }

  lemma AvoidsMeansAbsent(s: string, c: char, pattern: string)
    requires Avoids(s, c) && c in pattern
    ensures !Contains(s, pattern)
  {
    if Contains(s, pattern) {
      ContainsMeansChar(s, c, pattern);
    }
  }

  // ---------- Round trips ----------

  ghost predicate ReadsReceipts(parse: Parser) {
    forall digest :: IsDigest(digest) ==>
      parse(Payload(digest)) == Some(Obj(map["schemaVersion" := Number(1.0), "algorithm" := Str("sha256"), "digest" := Str(digest)]))
  }

  lemma LineEndsText(base: string, digest: string)
    requires IsDigest(digest) && !Contains(base, Key())
    ensures ReceiptSuffix(WithLine(base, digest)) == Success(Some(Suffix(base, Payload(digest))))
  {
    var text := WithLine(base, digest);
    PayloadAvoids(digest, '\n');
    PayloadAvoids(digest, '\r');
    AvoidsMeansAbsent(Payload(digest), '\n', "\n");
    AvoidsMeansAbsent(Payload(digest), '\r', "\r");
    if base == "" {
      assert text[..|Prefix()|] == Prefix() && text[|Prefix()|..] == Payload(digest);
    } else {
      NotAtStart(base, digest);
      LastLine(base, digest);
      assert text[|base| + 1 + |Prefix()|..] == Payload(digest);
      assert text[..|base|] == base;
    }
  }

  lemma NotAtStart(base: string, digest: string)
    requires !Contains(base, Key()) && base != ""
    ensures !StartsWith(base + ['\n'] + Line(digest), Prefix())
  {
    var text := base + ['\n'] + Line(digest);
    PrefixAvoids('\n');
    KeyInPrefix(base);
    if StartsWith(text, Prefix()) {
      OccursBeside(base, '\n', Line(digest), Prefix(), 0);
    }
  }

  lemma LineAvoids(digest: string)
    requires IsDigest(digest)
    ensures Avoids(Line(digest), '\n')
  {
    PrefixAvoids('\n');
    PayloadAvoids(digest, '\n');
    assert Prefix() == Prefix()[..1] + Prefix()[1..];
    Join(Prefix(), Payload(digest), '\n');
  }

  lemma LastLine(base: string, digest: string)
    requires IsDigest(digest)
    ensures LastIndexOf(base + ['\n'] + Line(digest), LinePrefix()) == |base|
  {
    var text := base + ['\n'] + Line(digest);
    assert text[|base|..|base| + |LinePrefix()|] == LinePrefix();
    assert Occurs(text, LinePrefix(), |base|);
    LineAvoids(digest);
    hide Line, Key;
    assert forall i :: |base| < i < |text| ==> text[i] == Line(digest)[i - |base| - 1];
    forall i | |base| < i ensures !Occurs(text, LinePrefix(), i) {
      if Occurs(text, LinePrefix(), i) {
        CharAt(text, LinePrefix(), i, 0);
      }
    }
  }

  lemma StripLeavesNoKey(parse: Parser, text: string)
    requires Strip(parse, text).Success?
    ensures !Contains(Strip(parse, text).value, Key())
  {
  }

  /** Printing is undone by parsing and by stripping. */
  lemma RenderedReads(parse: Parser, base: string, digest: string)
    requires ReadsReceipts(parse) && IsDigest(digest) && !Contains(base, Key())
    ensures ParseReceipt(parse, WithLine(base, digest)) == Success(Some(digest))
    ensures Strip(parse, WithLine(base, digest)) == Success(base)
  {
    LineEndsText(base, digest);
  }

  /**
   Where rendering succeeds: stripping the result is stripping the original, the receipt reads back, and
   rendering again replaces the receipt.
   */
  lemma RenderRoundTrip(parse: Parser, text: string, first: string, second: string)
    requires ReadsReceipts(parse) && Render(parse, Written(text), first).Success?
    ensures var rendered := Render(parse, Written(text), first).value;
            && Strip(parse, rendered) == Strip(parse, text)
            && ParseReceipt(parse, rendered) == Success(Some(first))
            && Render(parse, Written(rendered), second) == Render(parse, Written(text), second)
  {
    StripLeavesNoKey(parse, text);
    RenderedReads(parse, Strip(parse, text).value, first);
  }

  /** A text without a receipt comes back as it was; a missing description comes back empty. */
  lemma PlainTextReturns(parse: Parser, description: Description, digest: string)
    requires ReadsReceipts(parse) && IsDigest(digest)
    requires description.Missing? || (description.Written? && ParseReceipt(parse, description.text) == Success(None))
    ensures Render(parse, description, digest).Success?
    ensures Strip(parse, Render(parse, description, digest).value) == Success(if description.Written? then description.text else "")
  {
    if description.Written? {
      StripLeavesNoKey(parse, description.text);
      RenderedReads(parse, description.text, digest);
    } else {
      RenderedReads(parse, "", digest);
    }
  }

  /** The reserved key is never overlooked: "no receipt" is exactly the answer for texts without it. */
  lemma KeyIsNeverOverlooked(parse: Parser, text: string)
    ensures ParseReceipt(parse, text) == Success(None) <==> !Contains(text, Key())
  {
    if !Contains(text, Key()) && text != "" {
      var suffix := ReceiptSuffix(text);
      KeyInPrefix(text);
    }
  }

  lemma KeyInPrefix(text: string)
    requires !Contains(text, Key())
    ensures !StartsWith(text, Prefix()) && LastIndexOf(text, LinePrefix()) == -1
  {
    assert Prefix()[0..|Key()|] == Key() && LinePrefix()[1..1 + |Key()|] == Key();
    if StartsWith(text, Prefix()) {
      ContainsPart(text, Prefix(), 0, |Key()|);
    } else if LastIndexOf(text, LinePrefix()) >= 0 {
      Occurrence(text, LinePrefix(), LastIndexOf(text, LinePrefix()));
      ContainsPart(text, LinePrefix(), 1, 1 + |Key()|);
    }
  }

  lemma InThree(text: string, from: nat, mid: nat)
    requires from <= mid <= |text|
    ensures text == text[..from] + text[from..mid] + text[mid..]
  {
  }

  /** A digest is 64 digits and letters a to f. */
  lemma DigestSpelled(s: string)
    ensures IsDigest(s) <==> |s| == 64 && forall i :: 0 <= i < 64 ==> 48 <= s[i] as int <= 57 || 97 <= s[i] as int <= 102
  {
  }

  ghost predicate HoldsDigest(v: Value, digest: string) {
    && v.Obj?
    && (forall key :: key in v.fields <==> key == "schemaVersion" || key == "algorithm" || key == "digest")
    && v.fields["schemaVersion"] == Number(1.0) && v.fields["algorithm"] == Str("sha256") && v.fields["digest"] == Str(digest)
    && IsDigest(digest)
  }

  /** A receipt is an object of exactly three members: version 1, the algorithm sha256, and a digest. */
  lemma ReceiptObjectExactly(v: Value)
    ensures DigestOf(v).Success? ==> HoldsDigest(v, DigestOf(v).value)
    ensures forall digest :: HoldsDigest(v, digest) ==> DigestOf(v) == Success(digest)
    ensures DigestOf(v) == Failure(NotAnObject) <==> !v.Obj?
  {
    forall digest | HoldsDigest(v, digest) ensures DigestOf(v) == Success(digest) {
      assert v.fields.Keys == {"algorithm", "digest", "schemaVersion"};
    }
  }

  lemma ContainsBreak(s: string, c: char)
    ensures Contains(s, [c]) <==> !Avoids(s, c)
  {
    if !Avoids(s, c) {
      var k :| 0 <= k < |s| && s[k] == c;
      assert s[k..k + 1] == [c];
      Occurrence(s, [c], k);
    } else if Contains(s, [c]) {
      ContainsMeansChar(s, c, [c]);
    }
  }

  /** A receipt is refused when a line break of either kind follows it. */
  lemma FinalLineExactly(text: string)
    requires StartsWith(text, Prefix()) || LastIndexOf(text, LinePrefix()) >= 0
    ensures var last := LastIndexOf(text, LinePrefix());
            var start := if StartsWith(text, Prefix()) || last == 0 then |Prefix()| else last + 1 + |Prefix()|;
            ReceiptSuffix(text).Failure? <==> exists i :: start <= i < |text| && (text[i] == '\n' || text[i] == '\r')
  {
    hide IndexOf, LastIndexOf, Key;
    var last := LastIndexOf(text, LinePrefix());
    var start := if StartsWith(text, Prefix()) || last == 0 then |Prefix()| else last + 1 + |Prefix()|;
    var payload := text[start..];
    ContainsBreak(payload, '\n');
    ContainsBreak(payload, '\r');
    assert ['\n'] == "\n" && ['\r'] == "\r";
    assert forall i :: start <= i < |text| ==> text[i] == payload[i - start];
    assert forall k :: 0 <= k < |payload| ==> payload[k] == text[start + k];
  }

  /** The three shapes of a text with a receipt; in the last, the line break before the receipt is lost. */
  lemma SuffixShape(text: string)
    requires ReceiptSuffix(text).Success? && ReceiptSuffix(text).value.Some?
    ensures var s := ReceiptSuffix(text).value.value;
            || (s.base == "" && text == Prefix() + s.payload)
            || (s.base != "" && text == s.base + ['\n'] + Prefix() + s.payload)
            || (s.base == "" && text == ['\n'] + (Key() + ":") + s.payload)
  {
    hide IndexOf, LastIndexOf, Key;
    var s := ReceiptSuffix(text).value.value;
    var at := LastIndexOf(text, LinePrefix());
    if StartsWith(text, Prefix()) {
      assert text == text[..|Prefix()|] + text[|Prefix()|..];
    } else if at > 0 {
      InThree(text, at, at + |LinePrefix()|);
    } else {
      assert text[..|LinePrefix()|] == LinePrefix();
      assert text == LinePrefix()[..|Prefix()|] + text[|Prefix()|..];
      assert LinePrefix()[..|Prefix()|] == ['\n'] + (Key() + ":");
    }
  }

  /** A text with a receipt is its base, a line break and the receipt, exactly when that break is not its first character. */
  lemma LineBreakIsLostExactly(text: string)
    requires ReceiptSuffix(text).Success? && ReceiptSuffix(text).value.Some?
    ensures var s := ReceiptSuffix(text).value.value;
            text == (if s.base == "" then "" else s.base + ['\n']) + Prefix() + s.payload <==> LastIndexOf(text, LinePrefix()) != 0
  {
    SuffixShape(text);
    PrefixAvoids('{');
    hide IndexOf, LastIndexOf, Key;
    var s := ReceiptSuffix(text).value.value;
    var at := LastIndexOf(text, LinePrefix());
    assert "" + Prefix() + s.payload == Prefix() + s.payload;
    if at == 0 {
      CharAt(text, LinePrefix(), 0, 0);
    } else if StartsWith(text, Prefix()) {
      assert text == text[..|Prefix()|] + text[|Prefix()|..];
    } else {
      InThree(text, at, at + |LinePrefix()|);
    }
  }

  /** A text that starts with the line break of its receipt loses it: stripping and rendering do not bring it back. */
  lemma LeadingBreakIsLost(parse: Parser, digest: string)
    requires ReadsReceipts(parse) && IsDigest(digest) && parse(" " + Payload(digest)) == parse(Payload(digest))
    ensures var text := ['\n'] + Line(digest);
            Render(parse, Written(text), digest) == Success(Line(digest)) && Line(digest) != text
  {
    LeadingBreak(digest);
    NoKeyInEmpty();
  }

  lemma LeadingBreak(digest: string)
    requires IsDigest(digest)
    ensures ReceiptSuffix(['\n'] + Line(digest)) == Success(Some(Suffix("", " " + Payload(digest))))
  {
    hide Key, Payload, IndexOf, LastIndexOf;
    var text := ['\n'] + Line(digest);
    SpacedPayloadAvoids(digest, '\n');
    SpacedPayloadAvoids(digest, '\r');
    LastLine("", digest);
    assert "" + ['\n'] + Line(digest) == text;
    if StartsWith(text, Prefix()) {
      StartsWithX(text);
    }
    assert text == (['\n'] + (Key() + ":")) + (" " + Payload(digest));
    assert text[|Prefix()|..] == " " + Payload(digest);
  }

  lemma StartsWithX(text: string)
    requires StartsWith(text, Prefix())
    ensures text != "" && text[0] == 'x'
  {
    PrefixAvoids('\n');
    CharAt(text, Prefix(), 0, 0);
  }

  lemma SpacedPayloadAvoids(digest: string, c: char)
    requires IsDigest(digest) && (c == '\n' || c == '\r')
    ensures !Contains(" " + Payload(digest), [c])
  {
    PayloadAvoids(digest, c);
    Join(" ", Payload(digest), c);
    AvoidsMeansAbsent(" " + Payload(digest), c, [c]);
  }

  lemma NoKeyInEmpty()
    ensures !Contains("", Key())
  {
    assert !Occurs("", Key(), IndexOf("", Key(), 0));
  }
}
