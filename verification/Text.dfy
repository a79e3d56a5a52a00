/** Searching in strings. */
module Text {

  predicate Occurs(text: string, pattern: string, at: int) {
    0 <= at && at + |pattern| <= |text| && text[at..at + |pattern|] == pattern
  }

  /** The first place at or after `from` where the pattern occurs, or -1. */
  function IndexOf(text: string, pattern: string, from: nat): (r: int)
    ensures r >= -1
    ensures r >= 0 ==> from <= r && Occurs(text, pattern, r)
    ensures forall i :: from <= i && Occurs(text, pattern, i) ==> 0 <= r <= i
    decreases |text| - from
  {
    if from > |text| then -1
    else if Occurs(text, pattern, from) then from
    else if from == |text| then -1
    else IndexOf(text, pattern, from + 1)
  }

  /** The last place before `until` where the pattern occurs, or -1. */
  function LastBefore(text: string, pattern: string, until: nat): (r: int)
    ensures r >= -1
    ensures r >= 0 ==> r < until && Occurs(text, pattern, r)
    ensures forall i :: i < until && Occurs(text, pattern, i) ==> i <= r
  {
    if until == 0 then -1
    else if Occurs(text, pattern, until - 1) then until - 1
    else LastBefore(text, pattern, until - 1)
  }

  function LastIndexOf(text: string, pattern: string): (r: int)
    ensures r >= -1
    ensures r >= 0 ==> Occurs(text, pattern, r)
    ensures forall i :: Occurs(text, pattern, i) ==> i <= r
  {
    LastBefore(text, pattern, |text| + 1)
  }

  predicate Contains(text: string, pattern: string) {
    IndexOf(text, pattern, 0) >= 0
  }

  predicate StartsWith(text: string, pattern: string) {
    Occurs(text, pattern, 0)
  }

  lemma Occurrence(text: string, pattern: string, at: int)
    requires Occurs(text, pattern, at)
    ensures Contains(text, pattern)
  {
  }

  /** An occurrence seen in a part of a text. */
  lemma OccursWithin(before: string, part: string, after: string, pattern: string, at: int)
    ensures Occurs(part, pattern, at) ==> Occurs(before + part + after, pattern, |before| + at)
    ensures 0 <= at && at + |pattern| <= |part| && Occurs(before + part + after, pattern, |before| + at) ==> Occurs(part, pattern, at)
  {
    var whole := before + part + after;
    if 0 <= at && at + |pattern| <= |part| {
      assert whole[|before| + at..|before| + at + |pattern|] == part[at..at + |pattern|];
    }
  }

  /** An occurrence agrees with the pattern at every character. */
  lemma CharAt(text: string, pattern: string, at: int, k: nat)
    requires Occurs(text, pattern, at) && k < |pattern|
    ensures text[at + k] == pattern[k] && pattern[k] in pattern
  {
    assert text[at..at + |pattern|][k] == text[at + k];
  }

  /** A pattern without `c` does not cross an occurrence of `c`. */
  lemma OccursBeside(left: string, c: char, right: string, pattern: string, at: int)
    requires c !in pattern && Occurs(left + [c] + right, pattern, at) && pattern != ""
    ensures Occurs(left, pattern, at) || Occurs(right, pattern, at - |left| - 1)
  {
    var whole := left + [c] + right;
    if at <= |left| < at + |pattern| {
      CharAt(whole, pattern, at, |left| - at);
    } else if at + |pattern| <= |left| {
      OccursWithin("", left, [c] + right, pattern, at);
      assert "" + left + ([c] + right) == whole;
    } else {
      OccursWithin(left + [c], right, "", pattern, at - |left| - 1);
      assert left + [c] + right + "" == whole;
    }
  }

  lemma ContainsPart(text: string, pattern: string, from: nat, to: nat)
    requires from <= to <= |pattern| && Contains(text, pattern)
    ensures Contains(text, pattern[from..to])
  {
    var at := IndexOf(text, pattern, 0);
    assert text[at..at + |pattern|] == pattern;
    assert text[at + from..at + to] == pattern[from..to] by {
      forall i | 0 <= i < to - from ensures text[at + from..at + to][i] == pattern[from..to][i] {
        assert text[at..at + |pattern|][from + i] == pattern[from + i];
      }
    }
    assert Occurs(text, pattern[from..to], at + from);
  }

  /** The first occurrence is the one with none before it. */
  lemma FirstIs(text: string, pattern: string, from: nat, at: nat)
    requires from <= at && Occurs(text, pattern, at)
    requires forall i :: from <= i < at ==> !Occurs(text, pattern, i)
    ensures IndexOf(text, pattern, from) == at
  {
    assert Occurs(text, pattern, IndexOf(text, pattern, from));
  }

  lemma FirstChar(a: string, c: char, b: string)
    requires c !in a
    ensures IndexOf(a + [c] + b, [c], 0) == |a|
  {
    var whole := a + [c] + b;
    assert whole[|a|..|a| + 1] == [c];
    forall i | 0 <= i < |a| ensures !Occurs(whole, [c], i) {
      assert whole[i..i + 1][0] == a[i];
    }
    FirstIs(whole, [c], 0, |a|);
  }

  /** A text splits in one way at its first `c`. */
  lemma SplitAtFirst(a: string, c: char, b: string, a': string, b': string)
    requires c !in a && c !in a' && a + [c] + b == a' + [c] + b'
    ensures a == a' && b == b'
  {
    var whole := a + [c] + b;
    FirstChar(a, c, b);
    FirstChar(a', c, b');
    assert a == whole[..|a|] && b == whole[|a| + 1..];
    assert a' == (a' + [c] + b')[..|a'|] && b' == (a' + [c] + b')[|a'| + 1..];
  }

  lemma IndexShifts(front: string, text: string, pattern: string, from: nat)
    requires pattern != ""
    ensures var r := IndexOf(text, pattern, from);
            IndexOf(front + text, pattern, |front| + from) == if r < 0 then -1 else |front| + r
  {
    hide IndexOf;
    var whole := front + text;
    forall i | from <= i ensures Occurs(whole, pattern, |front| + i) <==> Occurs(text, pattern, i) {
      OccursWithin(front, text, "", pattern, i);
      assert front + text + "" == whole;
    }
    var r, s := IndexOf(text, pattern, from), IndexOf(whole, pattern, |front| + from);
    if s >= 0 {
      assert Occurs(whole, pattern, |front| + (s - |front|));
      assert Occurs(text, pattern, s - |front|);
    }
    if r >= 0 {
      assert Occurs(whole, pattern, |front| + r);
    }
  }

  /** When no occurrence starts in the front, searching the text is searching the rest. */
  lemma SkipFront(front: string, text: string, pattern: string, from: nat)
    requires pattern != "" && from <= |front| && forall i :: from <= i < |front| ==> !Occurs(front + text, pattern, i)
    ensures IndexOf(front + text, pattern, from) == (if IndexOf(text, pattern, 0) < 0 then -1 else |front| + IndexOf(text, pattern, 0))
  {
    var whole := front + text;
    IndexShifts(front, text, pattern, 0);
    var r := IndexOf(whole, pattern, |front|);
    if r >= 0 {
      FirstIs(whole, pattern, from, r);
    } else {
      forall i | from <= i ensures !Occurs(whole, pattern, i) {
      }
    }
  }
}
