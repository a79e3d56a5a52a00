/** Masking: every secret is replaced in turn, longest first. */
module Secrets {
  import opened Sequences
  import opened Ordering
  import opened Text

  // ---------- Replacing one secret ----------

  /** `text.split(secret).join(replacement)`: leftmost occurrences that do not overlap. */
  function Replace(text: string, secret: string, replacement: string): string
    requires secret != ""
  {
    if text == "" then ""
    else if secret <= text then replacement + Replace(text[|secret|..], secret, replacement)
    else [text[0]] + Replace(text[1..], secret, replacement)
  }

  /**
   No occurrence of the secret can reach into the replacement: neither holds the other, and no end of the
   secret is the start of the replacement, nor the other way round.
   */
  predicate Apart(replacement: string, secret: string) {
    && !Contains(replacement, secret)
    && (if replacement == "" then |secret| <= 1 else !Contains(secret, replacement))
    && forall k :: 0 < k < |secret| && k <= |replacement| ==>
         secret[|secret| - k..] != replacement[..k] && secret[..k] != replacement[|replacement| - k..]
  }

  lemma MiddleSlice(front: string, mid: string, rest: string, lo: nat, hi: nat)
    requires |front| <= lo <= hi <= |front| + |mid|
    ensures (front + mid + rest)[lo..hi] == mid[lo - |front|..hi - |front|]
  {
  }

  /** A part of an occurrence is that part of the pattern. */
  lemma OccurrencePart(text: string, pattern: string, at: int, from: nat, until: nat)
    requires Occurs(text, pattern, at) && from <= until <= |pattern|
    ensures text[at + from..at + until] == pattern[from..until]
  {
    forall i | from <= i < until ensures text[at + i] == pattern[i] {
      CharAt(text, pattern, at, i);
    }
  }

  /** An occurrence lies wholly before or wholly after a replacement. */
  lemma LiesBeside(front: string, replacement: string, rest: string, secret: string, at: int)
    requires secret != "" && Apart(replacement, secret) && Occurs(front + replacement + rest, secret, at)
    ensures Occurs(front, secret, at) || Occurs(rest, secret, at - |front| - |replacement|)
  {
    hide IndexOf, Contains;
    var start, end, stop := |front|, |front| + |replacement|, at + |secret|;
    if stop <= start {
      assert front + (replacement + rest) == front + replacement + rest;
      OccursWithin("", front, replacement + rest, secret, at);
      assert "" + front == front;
    } else if at >= end {
      OccursWithin(front + replacement, rest, "", secret, at - end);
      assert front + replacement + rest + "" == front + replacement + rest;
    } else {
      Reaches(front, replacement, rest, secret, at);
    }
  }

  lemma Reaches(front: string, replacement: string, rest: string, secret: string, at: int)
    requires secret != "" && Occurs(front + replacement + rest, secret, at)
    requires |front| < at + |secret| && at < |front| + |replacement|
    ensures !Apart(replacement, secret)
  {
    hide Apart, Occurs;
    var start, end, stop := |front|, |front| + |replacement|, at + |secret|;
    if start <= at && stop <= end {
      ReachesInto(front, replacement, rest, secret, at);
    } else if at <= start && end <= stop {
      ReachesAcross(front, replacement, rest, secret, at);
    } else {
      ReachesEnd(front, replacement, rest, secret, at);
    }
  }

  lemma ReachesInto(front: string, replacement: string, rest: string, secret: string, at: int)
    requires Occurs(front + replacement + rest, secret, at) && |front| <= at && at + |secret| <= |front| + |replacement|
    ensures !Apart(replacement, secret)
  {
    hide IndexOf, Contains;
    MiddleSlice(front, replacement, rest, at, at + |secret|);
    Occurrence(replacement, secret, at - |front|);
  }

  lemma ReachesAcross(front: string, replacement: string, rest: string, secret: string, at: int)
    requires Occurs(front + replacement + rest, secret, at)
    requires at <= |front| < at + |secret| && at < |front| + |replacement| <= at + |secret|
    ensures !Apart(replacement, secret)
  {
    hide IndexOf, Contains;
    var start, end := |front|, |front| + |replacement|;
    MiddleSlice(front, replacement, rest, start, end);
    OccurrencePart(front + replacement + rest, secret, at, start - at, end - at);
    assert replacement[0..|replacement|] == replacement;
    Occurrence(secret, replacement, start - at);
  }

  lemma ReachesEnd(front: string, replacement: string, rest: string, secret: string, at: int)
    requires Occurs(front + replacement + rest, secret, at)
    requires at < |front| < at + |secret| < |front| + |replacement| || |front| < at < |front| + |replacement| < at + |secret|
    ensures !Apart(replacement, secret)
  {
    hide IndexOf, Contains;
    var start, end, stop := |front|, |front| + |replacement|, at + |secret|;
    if at < start {
      MiddleSlice(front, replacement, rest, start, stop);
      OccurrencePart(front + replacement + rest, secret, at, start - at, |secret|);
      assert secret[|secret| - (stop - start)..] == replacement[..stop - start];
    } else {
      MiddleSlice(front, replacement, rest, at, end);
      OccurrencePart(front + replacement + rest, secret, at, 0, end - at);
      assert secret[..end - at] == replacement[|replacement| - (end - at)..];
    }
  }

  /** Replacing starts at the first occurrence. */
  lemma {:induction false} ReplaceFirst(text: string, secret: string, replacement: string, at: nat)
    requires secret != "" && IndexOf(text, secret, 0) == at
    ensures at + |secret| <= |text|
    ensures Replace(text, secret, replacement) == text[..at] + replacement + Replace(text[at + |secret|..], secret, replacement)
    decreases at
  {
    hide *;
    if at == 0 {
      FirstAtStart(text, secret);
      ReplaceStep(text, secret, replacement);
      assert text[..0] + replacement == replacement;
    } else {
      FirstIsLater(text, secret, at);
      ReplaceStep(text, secret, replacement);
      var rest := text[1..];
      ReplaceFirst(rest, secret, replacement, at - 1);
      Cut(text, at, |secret|);
      Regroup([text[0]], rest[..at - 1], replacement, Replace(rest[at - 1 + |secret|..], secret, replacement));
    }
  }

  lemma ReplaceStep(text: string, secret: string, replacement: string)
    requires secret != "" && text != ""
    ensures Replace(text, secret, replacement) ==
              if secret <= text then replacement + Replace(text[|secret|..], secret, replacement)
              else [text[0]] + Replace(text[1..], secret, replacement)
  {
  }

  lemma Cut(text: string, at: nat, n: nat)
    requires 0 < at && at + n <= |text|
    ensures text[..at] == [text[0]] + text[1..][..at - 1] && text[at + n..] == text[1..][at - 1 + n..]
  {
  }

  lemma FirstAtStart(text: string, secret: string)
    requires secret != "" && IndexOf(text, secret, 0) == 0
    ensures secret <= text && text != ""
  {
  }

  lemma FirstIsLater(text: string, secret: string, at: nat)
    requires secret != "" && IndexOf(text, secret, 0) == at > 0
    ensures !(secret <= text) && at + |secret| <= |text| && IndexOf(text[1..], secret, 0) == at - 1
  {
    hide IndexOf;
    assert text == [text[0]] + text[1..];
    assert !Occurs(text, secret, 0);
    SkipFront([text[0]], text[1..], secret, 0);
  }

  /** Replacing one secret brings no other secret about that stands apart, and removes its own. */
  lemma {:induction false} ReplaceAddsNothing(text: string, secret: string, replacement: string, other: string, at: nat)
    requires secret != "" && other != "" && Apart(replacement, other)
    requires Occurs(Replace(text, secret, replacement), other, at)
    ensures Contains(text, other) && other != secret
    decreases |text|
  {
    hide Apart, Replace;
    if !Contains(text, secret) {
      ReplaceNothing(text, secret, replacement);
      Occurrence(text, other, at);
    } else {
      var first := IndexOf(text, secret, 0);
      ReplaceFirst(text, secret, replacement, first);
      var rest := text[first + |secret|..];
      LiesBeside(text[..first], replacement, Replace(rest, secret, replacement), other, at);
      if Occurs(text[..first], other, at) {
        assert text[..first][at..at + |other|] == text[at..at + |other|];
        assert Occurs(text, other, at);
      } else {
        ReplaceAddsNothing(rest, secret, replacement, other, at - first - |replacement|);
        ContainsLater(text, first + |secret|, other);
      }
    }
  }

  lemma ContainsLater(text: string, from: nat, pattern: string)
    requires from <= |text| && Contains(text[from..], pattern)
    ensures Contains(text, pattern)
  {
    var at := IndexOf(text[from..], pattern, 0);
    OccursWithin(text[..from], text[from..], "", pattern, at);
    assert text[..from] + text[from..] + "" == text;
    Occurrence(text, pattern, from + at);
  }

  lemma {:induction false} ReplaceNothing(text: string, secret: string, replacement: string)
    requires secret != "" && !Contains(text, secret)
    ensures Replace(text, secret, replacement) == text
  {
    if text != "" {
      if secret <= text {
        Occurrence(text, secret, 0);
      } else {
        if Contains(text[1..], secret) {
          ContainsLater(text, 1, secret);
        }
        ReplaceNothing(text[1..], secret, replacement);
      }
    }
  }

  // ---------- All secrets ----------

  /** What callers pass: texts, scalars and lists of them, nested. */
  datatype Input = Nothing | Str(text: string) | Scalar(text: string) | Many(entries: seq<Input>)

  function Flatten(trim: string -> string, value: Input): seq<string>
    decreases value
  {
    match value
    case Nothing => []
    case Str(text) => if trim(text) == "" then [] else [trim(text)]
    case Scalar(text) => [text]
    case Many(entries) => FlattenAll(trim, entries)
  }

  function FlattenAll(trim: string -> string, entries: seq<Input>): seq<string>
    decreases entries
  {
    if entries == [] then [] else Flatten(trim, entries[0]) + FlattenAll(trim, entries[1..])
  }

  /** Each text once, in order of first appearance. */
  function Once(values: seq<string>): seq<string> {
    if values == [] then []
    else
      var before := Once(values[..|values| - 1]);
      if values[|values| - 1] in before then before else before + [values[|values| - 1]]
  }

  predicate LongerFirst(a: string, b: string) {
    |a| >= |b|
  }

  function Normalize(trim: string -> string, value: Input): seq<string> {
    SortBy(Once(Flatten(trim, value)), LongerFirst)
  }

  function Fold(text: string, secrets: seq<string>, replacement: string): string {
    if secrets == [] then text
    else
      var before := Fold(text, secrets[..|secrets| - 1], replacement);
      var secret := secrets[|secrets| - 1];
      if secret == "" then before else Replace(before, secret, replacement)
  }

  function Redact(trim: string -> string, text: string, value: Input, replacement: string): string {
    Fold(text, Normalize(trim, value), replacement)
  }

  lemma {:induction false} OnceKeeps(values: seq<string>)
    ensures Distinct(Once(values)) && forall v :: v in Once(values) <==> v in values
  {
    if values != [] {
      var n := |values| - 1;
      OnceKeeps(values[..n]);
      assert values == values[..n] + [values[n]];
      if values[n] !in Once(values[..n]) {
        DistinctSnoc(Once(values[..n]), values[n]);
      }
    }
  }

  lemma NormalizeKeeps(trim: string -> string, value: Input)
    ensures forall v :: v in Normalize(trim, value) <==> v in Flatten(trim, value)
    ensures Sorted(Normalize(trim, value), LongerFirst) && Distinct(Normalize(trim, value))
  {
    var once := Once(Flatten(trim, value));
    OnceKeeps(Flatten(trim, value));
    SortKeeps(once, LongerFirst);
    SortSorts(once, LongerFirst);
    DistinctRearranged(once, SortBy(once, LongerFirst));
  }

  /** A secret that stands apart from the replacement is gone after the whole fold, whatever the other secrets are. */
  lemma {:induction false} FoldRemoves(text: string, secrets: seq<string>, replacement: string, secret: string)
    requires secret in secrets && secret != "" && Apart(replacement, secret)
    ensures !Contains(Fold(text, secrets, replacement), secret)
  {
    var n := |secrets| - 1;
    var before, last := Fold(text, secrets[..n], replacement), secrets[n];
    assert secrets == secrets[..n] + [last];
    var out := Fold(text, secrets, replacement);
    if secret != last {
      FoldRemoves(text, secrets[..n], replacement, secret);
    }
    if Contains(out, secret) && last != "" {
      ReplaceAddsNothing(before, last, replacement, secret, IndexOf(out, secret, 0));
    }
  }

  /** Where no secret occurs, nothing changes. */
  lemma {:induction false} FoldNothing(text: string, secrets: seq<string>, replacement: string)
    requires forall s :: s in secrets && s != "" ==> !Contains(text, s)
    ensures Fold(text, secrets, replacement) == text
  {
    if secrets != [] {
      var n := |secrets| - 1;
      FoldNothing(text, secrets[..n], replacement);
      if secrets[n] != "" {
        ReplaceNothing(text, secrets[n], replacement);
      }
    }
  }

  // ---------- Redaction ----------

  function Redacted(): string { "[REDACTED]" }

  lemma EndsDiffer(secret: string, r: string, k: nat)
    requires 0 < k < |secret| && k <= |r| && r[0] !in secret && r[|r| - 1] !in secret
    ensures secret[|secret| - k..] != r[..k] && secret[..k] != r[|r| - k..]
  {
    assert secret[|secret| - k..][0] in secret && secret[..k][k - 1] in secret;
    assert r[..k][0] == r[0] && r[|r| - k..][k - 1] == r[|r| - 1];
  }

  lemma RedactedApart(secret: string)
    requires '[' !in secret && ']' !in secret && !Contains("REDACTED", secret)
    ensures Apart(Redacted(), secret)
  {
    var r := Redacted();
    if Contains(r, secret) {
      var at := IndexOf(r, secret, 0);
      assert "" + ['['] + "REDACTED]" == r && "REDACTED" + [']'] + "" == "REDACTED]";
      assert secret == "" ==> Occurs("REDACTED", secret, 0);
      OccursBeside("", '[', "REDACTED]", secret, at);
      OccursBeside("REDACTED", ']', "", secret, at - 1);
    }
    assert r[0] == '[' && r[9] == ']';
    if Contains(secret, r) {
      CharAt(secret, r, IndexOf(secret, r, 0), 0);
    }
    forall k | 0 < k < |secret| && k <= |r| ensures secret[|secret| - k..] != r[..k] && secret[..k] != r[|r| - k..] {
      EndsDiffer(secret, r, k);
    }
  }

  /** After redaction no secret is left that has no bracket and is no part of the word REDACTED. */
  lemma RedactionRemoves(trim: string -> string, text: string, value: Input, secret: string)
    requires secret in Flatten(trim, value) && secret != ""
    requires '[' !in secret && ']' !in secret && !Contains("REDACTED", secret)
    ensures !Contains(Redact(trim, text, value, Redacted()), secret)
  {
    NormalizeKeeps(trim, value);
    RedactedApart(secret);
    FoldRemoves(text, Normalize(trim, value), Redacted(), secret);
  }

  /** Redacting what has been redacted changes nothing, when every secret stands apart. */
  lemma RedactionIsIdempotent(trim: string -> string, text: string, value: Input, replacement: string)
    requires forall s :: s in Flatten(trim, value) && s != "" ==> Apart(replacement, s)
    ensures Redact(trim, Redact(trim, text, value, replacement), value, replacement) == Redact(trim, text, value, replacement)
  {
    var secrets := Normalize(trim, value);
    NormalizeKeeps(trim, value);
    forall s | s in secrets && s != "" ensures !Contains(Fold(text, secrets, replacement), s) {
      FoldRemoves(text, secrets, replacement, s);
    }
    FoldNothing(Fold(text, secrets, replacement), secrets, replacement);
  }

  lemma ReplaceWhole(secret: string, replacement: string)
    requires secret != ""
    ensures Replace(secret, secret, replacement) == replacement
  {
    assert secret[|secret|..] == "";
  }

  // ---------- Secrets that masking cannot keep out ----------

  /** The fold of two secrets, the second of one character. */
  lemma FoldTwo(text: string, secret: string, c: char, replacement: string)
    requires secret != "" && !Contains(text, secret)
    ensures Fold(text, [secret, [c]], replacement) == Replace(text, [c], replacement)
  {
    ReplaceNothing(text, secret, replacement);
    FoldOne(text, secret, replacement);
    assert [secret, [c]][..1] == [secret];
  }

  lemma {:induction false} ReplaceOne(front: string, c: char, rest: string, replacement: string)
    requires c !in front && c !in rest
    ensures Replace(front + [c] + rest, [c], replacement) == front + replacement + rest
  {
    var text := front + [c] + rest;
    if front == "" {
      assert text[1..] == rest;
      if Contains(rest, [c]) {
        CharAt(rest, [c], IndexOf(rest, [c], 0), 0);
      }
      ReplaceNothing(rest, [c], replacement);
      assert front + replacement == replacement;
    } else {
      assert text[1..] == front[1..] + [c] + rest && text[0] == front[0] != c;
      ReplaceOne(front[1..], c, rest, replacement);
      assert front == [front[0]] + front[1..];
      Regroup([front[0]], front[1..], replacement, rest);
    }
  }

  /** A text that holds no secret, and its redaction does. */
  lemma BroughtAbout(front: string, rest: string, secret: string, c: char, replacement: string)
    requires c !in secret && |front| < |secret| && |rest| < |secret| && c !in front && c !in rest
    requires Contains(front + replacement + rest, secret)
    ensures Contains(Fold(front + [c] + rest, [secret, [c]], replacement), secret)
  {
    var text := front + [c] + rest;
    if Contains(text, secret) {
      OccursBeside(front, c, rest, secret, IndexOf(text, secret, 0));
    }
    FoldTwo(text, secret, c, replacement);
    ReplaceOne(front, c, rest, replacement);
  }

  ghost predicate Meets(front: string, replacement: string, rest: string, secret: string) {
    && |front| < |secret| && |rest| < |secret| && |secret| > 1
    && (forall d :: d in front || d in rest ==> d in secret)
    && Contains(front + replacement + rest, secret)
  }

  /** Around which text the secret and the replacement meet, unless the replacement holds the secret. */
  lemma Meeting(secret: string, replacement: string) returns (front: string, rest: string)
    requires secret != "" && !Apart(replacement, secret) && !Contains(replacement, secret)
    ensures Meets(front, replacement, rest, secret)
  {
    hide IndexOf, Contains, Meets;
    var n, m := |secret|, |replacement|;
    if replacement == "" {
      front, rest := secret[..1], secret[1..];
      MeetsInside(secret, replacement, 1);
    } else if Contains(secret, replacement) {
      var at := PlaceOf(secret, replacement);
      front, rest := secret[..at], secret[at + m..];
      ContainsItself(secret);
      MeetsInside(secret, replacement, at);
    } else {
      var k :| 0 < k < n && k <= m && (secret[n - k..] == replacement[..k] || secret[..k] == replacement[m - k..]);
      if secret[n - k..] == replacement[..k] {
        front, rest := secret[..n - k], "";
        MeetsAtStart(secret, replacement, k);
      } else {
        front, rest := "", secret[k..];
        MeetsAtEnd(secret, replacement, k);
      }
    }
  }

  lemma MeetsInside(secret: string, replacement: string, at: nat)
    requires Occurs(secret, replacement, at) && secret != replacement
    requires replacement == "" ==> 0 < at < |secret|
    ensures Meets(secret[..at], replacement, secret[at + |replacement|..], secret)
  {
    hide IndexOf, Contains;
    Within(secret, replacement, at);
    Around(secret, replacement, secret[..at], secret[at + |replacement|..], 0, "", "");
  }

  lemma MeetsAtStart(secret: string, replacement: string, k: nat)
    requires 0 < k < |secret| && k <= |replacement| && secret[|secret| - k..] == replacement[..k]
    ensures Meets(secret[..|secret| - k], replacement, "", secret)
  {
    hide IndexOf, Contains;
    Around(secret, replacement, secret[..|secret| - k], "", 0, "", replacement[k..]);
  }

  lemma MeetsAtEnd(secret: string, replacement: string, k: nat)
    requires 0 < k < |secret| && k <= |replacement| && secret[..k] == replacement[|replacement| - k..]
    ensures Meets("", replacement, secret[k..], secret)
  {
    hide IndexOf, Contains;
    Around(secret, replacement, "", secret[k..], |replacement| - k, replacement[..|replacement| - k], "");
  }

  lemma PlaceOf(text: string, pattern: string) returns (at: nat)
    requires Contains(text, pattern)
    ensures Occurs(text, pattern, at)
  {
    at := IndexOf(text, pattern, 0);
  }

  lemma Within(secret: string, replacement: string, at: nat)
    requires Occurs(secret, replacement, at) && secret != replacement
    ensures |replacement| < |secret| && secret == secret[..at] + replacement + secret[at + |replacement|..]
  {
    WholeSlice(secret, at, |replacement|);
  }

  lemma WholeSlice(s: string, at: nat, n: nat)
    requires at + n <= |s|
    ensures n == |s| ==> s[at..at + n] == s
  {
  }

  lemma ContainsItself(s: string)
    ensures Contains(s, s)
  {
    assert s[0..|s|] == s;
    Occurrence(s, s, 0);
  }

  lemma Around(secret: string, replacement: string, front: string, rest: string, at: nat, before: string, after: string)
    requires front + replacement + rest == before + secret + after && at == |before|
    ensures Contains(front + replacement + rest, secret)
  {
    assert (before + secret + after)[at..at + |secret|] == secret;
    Occurrence(before + secret + after, secret, at);
  }

  lemma FlattenTwo(trim: string -> string, secret: string, c: char)
    requires trim(secret) == secret && trim([c]) == [c] && secret != ""
    ensures Flatten(trim, Many([Str(secret), Str([c])])) == [secret, [c]]
  {
    var entries := [Str(secret), Str([c])];
    assert entries[1..] == [Str([c])] && [Str([c])][1..] == [];
    assert FlattenAll(trim, [Str([c])]) == [[c]] + FlattenAll(trim, []);
    assert FlattenAll(trim, entries) == [secret] + FlattenAll(trim, entries[1..]);
  }

  lemma OnceOne(secret: string)
    ensures Once([secret]) == [secret]
  {
    assert [secret][..0] == [] && Once([]) == [];
  }

  lemma NormalizeTwo(trim: string -> string, secret: string, c: char)
    requires trim(secret) == secret && trim([c]) == [c] && |secret| > 1
    ensures Normalize(trim, Many([Str(secret), Str([c])])) == [secret, [c]]
  {
    FlattenTwo(trim, secret, c);
    OnceOne(secret);
    assert [secret, [c]][..1] == [secret] && secret != [c];
    assert Once([secret, [c]]) == [secret, [c]];
    assert [secret, [c]][1..] == [[c]] && [[c]][1..] == [];
    assert SortBy([[c]], LongerFirst) == [[c]];
    assert SortBy([secret, [c]], LongerFirst) == [secret, [c]];
  }

  lemma NormalizeOne(trim: string -> string, secret: string)
    requires trim(secret) == secret && secret != ""
    ensures Normalize(trim, Str(secret)) == [secret]
  {
    OnceOne(secret);
    assert [secret][1..] == [] && SortBy([], LongerFirst) == [];
    assert SortBy([secret], LongerFirst) == [secret];
  }

  lemma FoldOne(text: string, secret: string, replacement: string)
    requires secret != ""
    ensures Fold(text, [secret], replacement) == Replace(text, secret, replacement)
  {
    assert [secret][..0] == [] && Fold(text, [], replacement) == text;
  }

  lemma CannotBeKeptOut(trim: string -> string, secret: string, replacement: string, c: char) returns (text: string, value: Input)
    requires secret != "" && trim(secret) == secret && trim([c]) == [c] && c !in secret
    requires !Apart(replacement, secret)
    ensures secret in Flatten(trim, value) && Contains(Redact(trim, text, value, replacement), secret)
  {
    hide Apart, IndexOf;
    if Contains(replacement, secret) {
      text, value := secret, Str(secret);
      NormalizeOne(trim, secret);
      ReplaceWhole(secret, replacement);
      FoldOne(secret, secret, replacement);
    } else {
      var front, rest := Meeting(secret, replacement);
      text, value := front + [c] + rest, Many([Str(secret), Str([c])]);
      NormalizeTwo(trim, secret, c);
      NormalizeKeeps(trim, value);
      BroughtAbout(front, rest, secret, c, replacement);
    }
  }

  /**
   Masking keeps a secret out of every text, whatever else is masked with it, exactly when it stands apart
   from the replacement.  `c` is any character that it does not have.
   */
  lemma {:induction false} MaskedExactly(trim: string -> string, secret: string, replacement: string, c: char)
    requires secret != "" && trim(secret) == secret && trim([c]) == [c] && c !in secret
    ensures (forall text, value ::
               secret in Flatten(trim, value) ==> !Contains(Redact(trim, text, value, replacement), secret)) <==> Apart(replacement, secret)
  {
    hide Apart, Contains, Flatten, Redact;
    if Apart(replacement, secret) {
      forall text, value | secret in Flatten(trim, value) ensures !Contains(Redact(trim, text, value, replacement), secret) {
        RedactKeepsOut(trim, text, value, replacement, secret);
      }
    } else {
      var text, value := CannotBeKeptOut(trim, secret, replacement, c);
    }
  }

  lemma RedactKeepsOut(trim: string -> string, text: string, value: Input, replacement: string, secret: string)
    requires secret in Flatten(trim, value) && secret != "" && Apart(replacement, secret)
    ensures !Contains(Redact(trim, text, value, replacement), secret)
  {
    hide Apart, Contains;
    NormalizeKeeps(trim, value);
    FoldRemoves(text, Normalize(trim, value), replacement, secret);
  }

  /** A secret that is part of the word REDACTED stays. */
  lemma PartOfTheWordStays(trim: string -> string)
    requires trim("D") == "D"
    ensures Contains(Redact(trim, "D", Str("D"), Redacted()), "D")
  {
    assert Flatten(trim, Str("D")) == ["D"];
    assert Once(["D"]) == ["D"] by {
      assert ["D"][..0] == [];
    }
    assert SortBy(["D"], LongerFirst) == ["D"] by {
      assert ["D"][1..] == [];
    }
    assert Fold("D", ["D"], Redacted()) == Replace("D", "D", Redacted()) by {
      assert ["D"][..0] == [];
    }
    ReplaceWhole("D", Redacted());
    assert Redact(trim, "D", Str("D"), Redacted()) == Redacted();
    assert Redacted()[9 - 1..9] == "D";
    Occurrence(Redacted(), "D", 8);
  }

  /** A secret with a bracket can be brought about by masking another one. */
  lemma BracketIsBroughtAbout()
    ensures Contains(Fold("xy", ["x[", "y"], Redacted()), "x[") && !Contains("xy", "x[")
  {
    var secrets := ["x[", "y"];
    forall i ensures !Occurs("xy", "x[", i) {
      if Occurs("xy", "x[", i) {
        CharAt("xy", "x[", i, 1);
      }
    }
    ReplaceNothing("xy", "x[", Redacted());
    ReplaceWhole("y", Redacted());
    assert secrets[..1] == ["x["] && secrets[..1][..0] == [];
    assert Fold("xy", secrets[..1], Redacted()) == "xy";
    assert "xy"[1..] == "y" && !("y" <= "xy");
    assert Replace("xy", "y", Redacted()) == ['x'] + Replace("y", "y", Redacted());
    assert (['x'] + Redacted())[0..2] == "x[";
    Occurrence(['x'] + Redacted(), "x[", 0);
  }

  // ---------- Loops and state ----------

  /** Appending the secrets of a value, depth first. */
  method AppendSecretValues(trim: string -> string, value: Input, results: seq<string>) returns (r: seq<string>)
    ensures r == results + Flatten(trim, value)
    decreases value
  {
    match value
    case Nothing =>
      r := results;
    case Str(text) =>
      r := if trim(text) == "" then results else results + [trim(text)];
    case Scalar(text) =>
      r := results + [text];
    case Many(entries) =>
      hide FlattenAll;
      r := results;
      assert entries[0..] == entries;
      for i := 0 to |entries|
        invariant r + FlattenAll(trim, entries[i..]) == results + FlattenAll(trim, entries)
      {
        FlattenStep(trim, entries, i);
        Associates(r, Flatten(trim, entries[i]), FlattenAll(trim, entries[i + 1..]));
        r := AppendSecretValues(trim, entries[i], r);
      }
      FlattenEnds(trim, entries);
      assert r + [] == r;
  }

  lemma FlattenStep(trim: string -> string, entries: seq<Input>, i: nat)
    requires i < |entries|
    ensures FlattenAll(trim, entries[i..]) == Flatten(trim, entries[i]) + FlattenAll(trim, entries[i + 1..])
  {
    assert entries[i..][1..] == entries[i + 1..];
  }

  lemma FlattenEnds(trim: string -> string, entries: seq<Input>)
    ensures FlattenAll(trim, entries[|entries|..]) == []
  {
  }

  method RedactSecrets(trim: string -> string, text: string, value: Input, replacement: string) returns (sanitized: string)
    ensures sanitized == Redact(trim, text, value, replacement)
  {
    var values := AppendSecretValues(trim, value, []);
    assert values == Flatten(trim, value);
    var secrets := SortBy(Once(values), LongerFirst);
    sanitized := text;
    for i := 0 to |secrets|
      invariant sanitized == Fold(text, secrets[..i], replacement)
    {
      assert secrets[..i + 1][..i] == secrets[..i];
      if secrets[i] != "" {
        sanitized := Replace(sanitized, secrets[i], replacement);
      }
    }
    assert secrets[..|secrets|] == secrets;
  }

  function AsInputs(secrets: seq<string>): seq<Input> {
    seq(|secrets|, i requires 0 <= i < |secrets| => Str(secrets[i]))
  }

  lemma {:induction false} FlattenTexts(trim: string -> string, secrets: seq<string>)
    requires forall s :: s in secrets ==> trim(s) == s && s != ""
    ensures FlattenAll(trim, AsInputs(secrets)) == secrets
  {
    if secrets != [] {
      assert AsInputs(secrets)[1..] == AsInputs(secrets[1..]);
      FlattenTexts(trim, secrets[1..]);
      assert secrets == [secrets[0]] + secrets[1..];
    }
  }

  /** A masker whose secrets grow; masking removes every one so far that stands apart from its replacement. */
  class MutableSecretMasker {
    const trim: string -> string
    const replacement: string
    var secrets: seq<string>

    ghost predicate Valid()
      reads this
    {
      && (forall s :: trim(trim(s)) == trim(s))
      && (forall s :: s in secrets ==> trim(s) == s && s != "")
      && Distinct(secrets)
    }

    /** The texts of numbers and booleans are never blank and have no space around them. */
    constructor (trim: string -> string, initial: Input, replacement: string)
      requires forall s :: trim(trim(s)) == trim(s)
      requires forall s :: s in Flatten(trim, initial) ==> trim(s) == s && s != ""
      ensures Valid() && this.trim == trim && this.replacement == replacement
      ensures forall s :: s in secrets <==> s in Flatten(trim, initial)
    {
      this.trim, this.replacement := trim, replacement;
      secrets := Normalize(trim, initial);
      NormalizeKeeps(trim, initial);
    }

    method Add(value: string)
      requires Valid()
      modifies this
      ensures Valid()
      ensures forall s :: s in secrets <==> s in old(secrets) || (s == trim(value) && s != "")
      ensures old(secrets) <= secrets
    {
      var normalized := trim(value);
      if normalized != "" && normalized !in secrets {
        DistinctSnoc(secrets, normalized);
        secrets := secrets + [normalized];
      }
    }

    method Mask(input: string) returns (masked: string)
      requires Valid()
      ensures masked == Redact(trim, input, Many(AsInputs(secrets)), replacement)
      ensures forall s :: s in secrets && Apart(replacement, s) ==> !Contains(masked, s)
      ensures (forall s :: s in secrets ==> !Contains(input, s)) ==> masked == input
    {
      masked := RedactSecrets(trim, input, Many(AsInputs(secrets)), replacement);
      FlattenTexts(trim, secrets);
      var ordered := Normalize(trim, Many(AsInputs(secrets)));
      NormalizeKeeps(trim, Many(AsInputs(secrets)));
      forall s | s in secrets && Apart(replacement, s) ensures !Contains(masked, s) {
        FoldRemoves(input, ordered, replacement, s);
      }
      if forall s :: s in secrets ==> !Contains(input, s) {
        FoldNothing(input, ordered, replacement);
      }
    }
  }
}
