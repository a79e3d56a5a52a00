/** Whether a server's answer includes what was requested, with wrappers and extra fields tolerated. */
module JsonInclusion {
  import opened Wrappers

  /** JSON values; `Absent` stands for undefined. Two references to one value are equal values here. */
  datatype Json =
    | Absent | Null | Bool(flag: bool) | Number(number: real) | Str(text: string)
    | Arr(items: seq<Json>)
    | Obj(fields: map<string, Json>)

  /** How the host reads texts: lower case of a trimmed text, and the number it spells. */
  datatype Host = Host(trim: string -> string, lower: string -> string, number: string -> Option<real>)

  const VALUE := "value"
  const ENABLED := "enabled"

  predicate Primitive(v: Json) {
    !v.Arr? && !v.Obj?
  }

  predicate PrimitiveMatches(host: Host, actual: Json, requested: Json) {
    || actual == requested
    || (requested.Bool? && actual.Str? && host.lower(host.trim(actual.text)) == (if requested.flag then "true" else "false"))
    || (requested.Number? && actual.Str? && host.trim(actual.text) != "" && host.number(host.trim(actual.text)) == Some(requested.number))
  }

  /** `typeof null` is an object, so a null envelope is looked into. */
  predicate Envelope(v: Json) {
    v.Bool? || v.Str? || v.Null? || v.Arr? || v.Obj?
  }

  predicate Includes(host: Host, actual: Json, requested: Json)
    decreases actual, requested
  {
    if actual == requested && Primitive(actual) then true
    else if Primitive(requested) then
      || PrimitiveMatches(host, actual, requested)
      || (actual.Obj? && Unwrapped(host, actual, requested))
    else if requested.Arr? then
      if actual.Arr? then
        |actual.items| == |requested.items|
        && forall i :: 0 <= i < |actual.items| ==> Includes(host, actual.items[i], requested.items[i])
      else
        actual.Obj? && Unwrapped(host, actual, requested)
    else
      actual.Obj?
      && ((forall key :: key in requested.fields ==>
             key in actual.fields && Includes(host, actual.fields[key], requested.fields[key]))
          || Unwrapped(host, actual, requested))
  }

  /** The value inside an envelope `{ value: … }` or, unless a list is requested, `{ enabled: … }`. */
  predicate Unwrapped(host: Host, actual: Json, requested: Json)
    requires actual.Obj?
    decreases actual, requested, 0
  {
    if VALUE in actual.fields then Includes(host, actual.fields[VALUE], requested)
    else !requested.Arr? && ENABLED in actual.fields && Envelope(actual.fields[ENABLED]) && Includes(host, actual.fields[ENABLED], requested)
  }

  // ---------- Primitives and envelopes ----------

  /**
   A text answers a boolean when it spells it and a number when it reads as it; any other two primitive
   values answer one another only when they are equal.
   */
  lemma PrimitivesExactly(host: Host, actual: Json, requested: Json)
    requires Primitive(actual) && Primitive(requested)
    ensures actual.Str? && requested.Bool? ==>
              (Includes(host, actual, requested) <==>
                 var spelled := host.lower(host.trim(actual.text));
                 (spelled == "true" && requested.flag) || (spelled == "false" && !requested.flag))
    ensures actual.Str? && requested.Number? ==>
              (Includes(host, actual, requested) <==>
                 host.trim(actual.text) != "" && host.number(host.trim(actual.text)) == Some(requested.number))
    ensures !(actual.Str? && (requested.Bool? || requested.Number?)) ==> (Includes(host, actual, requested) <==> actual == requested)
  {
  }

  /** Lists answer lists of their length element by element, and nothing else. */
  lemma ListsExactly(host: Host, items: seq<Json>, requested: Json)
    ensures Includes(host, Arr(items), requested) <==>
              requested.Arr? && |requested.items| == |items| && forall i :: 0 <= i < |items| ==> Includes(host, items[i], requested.items[i])
    ensures Primitive(requested) ==> !Includes(host, Arr(items), requested)
  {
  }

  /**
   An object answers a primitive or a list through `value` when it has that key; otherwise it answers a
   primitive through `enabled`, unless that holds a number or nothing.
   */
  lemma EnvelopesExactly(host: Host, fields: map<string, Json>, requested: Json)
    requires !requested.Obj?
    ensures "value" in fields ==> (Includes(host, Obj(fields), requested) <==> Includes(host, fields["value"], requested))
    ensures "value" !in fields && requested.Arr? ==> !Includes(host, Obj(fields), requested)
    ensures "value" !in fields && !requested.Arr? ==>
              (Includes(host, Obj(fields), requested) <==>
                 "enabled" in fields && !fields["enabled"].Number? && !fields["enabled"].Absent? && Includes(host, fields["enabled"], requested))
  {
    if Primitive(requested) {
      assert !PrimitiveMatches(host, Obj(fields), requested);
    }
  }

  /**
   An object answers an object when it has every requested key with an answer to it, or through `value`,
   or without that key through `enabled`; no other value does.
   */
  lemma ObjectsExactly(host: Host, actual: Json, wanted: map<string, Json>)
    ensures Includes(host, actual, Obj(wanted)) <==>
              && actual.Obj?
              && ((forall key :: key in wanted ==> key in actual.fields && Includes(host, actual.fields[key], wanted[key]))
                  || if "value" in actual.fields then Includes(host, actual.fields["value"], Obj(wanted))
                     else "enabled" in actual.fields && Includes(host, actual.fields["enabled"], Obj(wanted)))
  {
    if actual.Obj? && "value" !in actual.fields && "enabled" in actual.fields && Includes(host, actual.fields["enabled"], Obj(wanted)) {
      assert actual.fields["enabled"].Obj?;
    }
  }

  // ---------- What keeps an answer including a request ----------

  /** Everything includes itself, so that comparing references first changes nothing. */
  lemma {:induction false} IncludesItself(host: Host, v: Json)
    ensures Includes(host, v, v)
    decreases v
  {
    match v
    case Arr(items) =>
      forall i | 0 <= i < |items| ensures Includes(host, items[i], items[i]) {
        IncludesItself(host, items[i]);
      }
    case Obj(fields) =>
      forall key | key in fields ensures Includes(host, fields[key], fields[key]) {
        IncludesItself(host, fields[key]);
      }
    case _ =>
  }

  /** Wrapping the answer as `{ value: answer, … }` keeps it, and for a request that is no object adds nothing. */
  lemma WrappingKeeps(host: Host, actual: Json, requested: Json, extra: map<string, Json>)
    ensures Includes(host, actual, requested) ==> Includes(host, Obj(extra[VALUE := actual]), requested)
    ensures !requested.Obj? ==> (Includes(host, Obj(extra[VALUE := actual]), requested) <==> Includes(host, actual, requested))
  {
    var wrapped := Obj(extra[VALUE := actual]);
    ObjectIncludes(host, extra[VALUE := actual], requested);
    assert Unwrapped(host, wrapped, requested) == Includes(host, actual, requested);
  }

  /** `big` is `small` with keys other than `value` added to its objects, at any depth. */
  ghost predicate Extends(big: Json, small: Json) {
    match small
    case Arr(items) => big.Arr? && |big.items| == |items| && forall i :: 0 <= i < |items| ==> Extends(big.items[i], items[i])
    case Obj(fields) =>
      && big.Obj?
      && (forall key :: key in fields ==> key in big.fields && Extends(big.fields[key], fields[key]))
      && (VALUE in big.fields ==> VALUE in fields)
    case _ => big == small
  }

  lemma ExtendsKind(big: Json, small: Json)
    requires Extends(big, small)
    ensures Primitive(small) ==> big == small
    ensures big.Arr? == small.Arr? && big.Obj? == small.Obj? && (Envelope(small) ==> Envelope(big))
  {
  }

  /** Fields that a server adds, `value` excepted, never hide what was requested. */
  lemma {:induction false} AddedKeysKeep(host: Host, big: Json, small: Json, requested: Json)
    requires Extends(big, small) && Includes(host, small, requested)
    ensures Includes(host, big, requested)
    decreases small, requested
  {
    ExtendsKind(big, small);
    if small.Obj? && Unwrapped(host, small, requested) {
      UnwrappedKeeps(host, big, small, requested);
    } else if small.Arr? && requested.Arr? {
      forall i | 0 <= i < |small.items| ensures Includes(host, big.items[i], requested.items[i]) {
        AddedKeysKeep(host, big.items[i], small.items[i], requested.items[i]);
      }
    } else if small.Obj? && requested.Obj? {
      forall key | key in requested.fields ensures key in big.fields && Includes(host, big.fields[key], requested.fields[key]) {
        AddedKeysKeep(host, big.fields[key], small.fields[key], requested.fields[key]);
      }
    }
  }

  lemma {:induction false} UnwrappedKeeps(host: Host, big: Json, small: Json, requested: Json)
    requires small.Obj? && Extends(big, small) && Unwrapped(host, small, requested)
    ensures Unwrapped(host, big, requested) && Includes(host, big, requested)
    decreases small, requested, 0
  {
    var key := if VALUE in small.fields then VALUE else ENABLED;
    ExtendsKind(big.fields[key], small.fields[key]);
    AddedKeysKeep(host, big.fields[key], small.fields[key], requested);
  }

  /** `small` without the keys that `requested` drops, at any depth. */
  ghost predicate AsksLess(less: Json, requested: Json) {
    match requested
    case Arr(items) => less.Arr? && |less.items| == |items| && forall i :: 0 <= i < |items| ==> AsksLess(less.items[i], items[i])
    case Obj(fields) => less.Obj? && forall key :: key in less.fields ==> key in fields && AsksLess(less.fields[key], fields[key])
    case _ => less == requested
  }

  /** Whoever asks for less is answered too. */
  lemma {:induction false} AskingLessKeeps(host: Host, actual: Json, requested: Json, less: Json)
    requires AsksLess(less, requested) && Includes(host, actual, requested)
    ensures Includes(host, actual, less)
    decreases actual, requested
  {
    if Primitive(requested) {
    } else if actual.Obj? && Unwrapped(host, actual, requested) {
      var key := if VALUE in actual.fields then VALUE else ENABLED;
      AskingLessKeeps(host, actual.fields[key], requested, less);
      assert Unwrapped(host, actual, less);
    } else if requested.Arr? {
      forall i | 0 <= i < |actual.items| ensures Includes(host, actual.items[i], less.items[i]) {
        AskingLessKeeps(host, actual.items[i], requested.items[i], less.items[i]);
      }
    } else {
      forall key | key in less.fields ensures Includes(host, actual.fields[key], less.fields[key]) {
        AskingLessKeeps(host, actual.fields[key], requested.fields[key], less.fields[key]);
      }
    }
  }

  // ---------- What does not ----------

  /** Every requested key is found in the answer itself. */
  predicate Direct(host: Host, actual: Json, requested: Json) {
    actual.Obj? && requested.Obj?
    && forall key :: key in requested.fields ==> key in actual.fields && Includes(host, actual.fields[key], requested.fields[key])
  }

  /** An object includes a request directly or through its envelope. */
  lemma ObjectIncludes(host: Host, fields: map<string, Json>, requested: Json)
    ensures Includes(host, Obj(fields), requested) <==> Direct(host, Obj(fields), requested) || Unwrapped(host, Obj(fields), requested)
  {
    var actual := Obj(fields);
    if Primitive(requested) {
      assert !PrimitiveMatches(host, actual, requested);
    }
  }

  predicate IncludesWith(host: Host, fields: map<string, Json>, x: Json, requested: Json) {
    Includes(host, Obj(fields[VALUE := x]), requested)
  }

  /** An answer without a field `value` survives any such field exactly when every requested key is in the answer itself. */
  lemma ValueKeyKeepsExactly(host: Host, fields: map<string, Json>, requested: Json)
    requires VALUE !in fields && Includes(host, Obj(fields), requested)
    ensures (forall x :: IncludesWith(host, fields, x, requested)) <==> Direct(host, Obj(fields), requested)
  {
    if Direct(host, Obj(fields), requested) {
      forall x ensures IncludesWith(host, fields, x, requested) {
        assert forall key :: key in requested.fields ==> key != VALUE;
      }
    } else {
      var x := Unwanted(host, requested);
      var big := Obj(fields[VALUE := x]);
      assert big.fields[VALUE] == x;
      ObjectIncludes(host, fields[VALUE := x], requested);
      assert !Unwrapped(host, big, requested);
      if requested.Obj? {
        var key :| key in requested.fields && !(key in fields && Includes(host, fields[key], requested.fields[key]));
        assert !(key in big.fields && Includes(host, big.fields[key], requested.fields[key]));
        assert !Direct(host, big, requested);
      }
      assert !IncludesWith(host, fields, x, requested);
    }
  }

  /** A value that includes neither the request nor what it asks for under `value`. */
  lemma Unwanted(host: Host, requested: Json) returns (x: Json)
    ensures !Includes(host, x, requested)
    ensures requested.Obj? && VALUE in requested.fields ==> !Includes(host, x, requested.fields[VALUE])
  {
    var inner := if requested.Obj? && VALUE in requested.fields then requested.fields[VALUE] else requested;
    x := if Primitive(inner) then Arr([]) else Null;
  }

  /** Inclusion is not transitive, and adding a field `value` can end it. */
  lemma NotTransitive(host: Host)
    ensures var on, off := Bool(true), Bool(false);
            var first, second := Obj(map[ENABLED := on, VALUE := off]), Obj(map[ENABLED := on]);
            Includes(host, first, second) && Includes(host, second, on) && !Includes(host, first, on)
  {
    var on, off := Bool(true), Bool(false);
    var first, second := Obj(map[ENABLED := on, VALUE := off]), Obj(map[ENABLED := on]);
    assert ENABLED[0] != VALUE[0];
    assert Includes(host, on, on);
    assert first.fields[ENABLED] == on && first.fields[VALUE] == off && second.fields[ENABLED] == on;
    assert VALUE !in second.fields;
    assert Unwrapped(host, second, on);
    assert !Includes(host, off, on);
  }

  // ---------- When inclusion chains ----------

  /** Whatever `middle` includes, so does whatever includes `middle`. */
  ghost predicate Chains(host: Host, middle: Json) {
    forall actual, requested :: Includes(host, actual, middle) && Includes(host, middle, requested) ==> Includes(host, actual, requested)
  }

  ghost predicate ChainsThroughout(host: Host, middle: Json) {
    && Chains(host, middle)
    && match middle
       case Arr(items) => forall i :: 0 <= i < |items| ==> ChainsThroughout(host, items[i])
       case Obj(fields) => forall key :: key in fields ==> ChainsThroughout(host, fields[key])
       case _ => true
  }

  /** Looking into `value` after `value` ends at a list. */
  predicate LeadsToList(v: Json) {
    v.Arr? || (v.Obj? && VALUE in v.fields && LeadsToList(v.fields[VALUE]))
  }

  /** What is looked into when a request other than a list meets no `value`. */
  predicate OpensEnabled(v: Json) {
    v.Obj? && VALUE !in v.fields && ENABLED in v.fields && Envelope(v.fields[ENABLED]) && !v.fields[ENABLED].Arr?
  }

  /** The answer has all that is in the object, and in the objects under `enabled` within it. */
  predicate Covers(host: Host, answer: Json, inner: Json) {
    inner.Obj? && Direct(host, answer, inner) && (OpensEnabled(inner) ==> Covers(host, answer, inner.fields[ENABLED]))
  }

  /** At every depth: `value` does not lead to a list, and what `enabled` holds is found beside it as well. */
  predicate Straight(host: Host, v: Json) {
    match v
    case Arr(items) => forall i :: 0 <= i < |items| ==> Straight(host, items[i])
    case Obj(fields) =>
      && (forall key :: key in fields ==> Straight(host, fields[key]))
      && (VALUE in fields ==> !LeadsToList(fields[VALUE]))
      && (OpensEnabled(v) ==> Covers(host, v, fields[ENABLED]))
    case _ => true
  }

  /** What includes a list leads to one. */
  lemma {:induction false} ListsComeFromLists(host: Host, v: Json, requested: Json)
    requires requested.Arr? && Includes(host, v, requested)
    ensures LeadsToList(v)
  {
    if v.Obj? {
      ListsComeFromLists(host, v.fields[VALUE], requested);
    }
  }

  /** Through a straight value inclusion is transitive. */
  lemma {:induction false} StraightChains(host: Host, actual: Json, middle: Json, requested: Json)
    requires Straight(host, middle) && Includes(host, actual, middle) && Includes(host, middle, requested)
    ensures Includes(host, actual, requested)
    decreases middle, actual, 1
  {
    if actual.Obj? && Unwrapped(host, actual, middle) {
      var key := if VALUE in actual.fields then VALUE else ENABLED;
      StraightChains(host, actual.fields[key], middle, requested);
      if middle.Obj? && requested.Arr? {
        ListsComeFromLists(host, middle, requested);
        assert false;
      }
      assert Unwrapped(host, actual, requested);
      ObjectIncludes(host, actual.fields, requested);
    } else if middle.Arr? {
      forall i | 0 <= i < |middle.items| ensures Includes(host, actual.items[i], requested.items[i]) {
        StraightChains(host, actual.items[i], middle.items[i], requested.items[i]);
      }
    } else if middle.Obj? {
      ObjectIncludes(host, middle.fields, requested);
      if VALUE in middle.fields && Includes(host, middle.fields[VALUE], requested) {
        StraightChains(host, actual.fields[VALUE], middle.fields[VALUE], requested);
        ObjectIncludes(host, actual.fields, requested);
      } else {
        if !Direct(host, middle, requested) {
          CoveredIsDirect(host, middle, middle.fields[ENABLED], requested);
        }
        forall key | key in requested.fields ensures key in actual.fields && Includes(host, actual.fields[key], requested.fields[key]) {
          StraightChains(host, actual.fields[key], middle.fields[key], requested.fields[key]);
        }
      }
    }
  }

  lemma {:induction false} CoveredIsDirect(host: Host, answer: Json, inner: Json, requested: Json)
    requires answer.Obj? && VALUE !in answer.fields && Straight(host, inner)
    requires Covers(host, answer, inner) && !requested.Arr? && Includes(host, inner, requested)
    ensures Direct(host, answer, requested)
    decreases inner, answer, 0
  {
    ObjectIncludes(host, inner.fields, requested);
    if Direct(host, inner, requested) {
      forall key | key in requested.fields ensures key in answer.fields && Includes(host, answer.fields[key], requested.fields[key]) {
        StraightChains(host, answer.fields[key], inner.fields[key], requested.fields[key]);
      }
    } else {
      CoveredIsDirect(host, answer, inner.fields[ENABLED], requested);
    }
  }

  /** A request other than a list that the inner object includes and the answer does not have itself. */
  lemma {:induction false} Uncovered(host: Host, answer: Json, inner: Json) returns (requested: Json)
    requires answer.Obj? && VALUE !in answer.fields && !inner.Arr? && !Covers(host, answer, inner)
    ensures !requested.Arr? && Includes(host, inner, requested) && !Direct(host, answer, requested)
    decreases inner
  {
    IncludesItself(host, inner);
    if inner.Obj? && Direct(host, answer, inner) {
      requested := Uncovered(host, answer, inner.fields[ENABLED]);
      ObjectIncludes(host, inner.fields, requested);
    } else {
      requested := inner;
    }
  }

  /** An object that is not straight itself breaks a chain. */
  lemma NotStraightBreaks(host: Host, middle: Json)
    requires middle.Obj?
    requires (VALUE in middle.fields && LeadsToList(middle.fields[VALUE])) || (OpensEnabled(middle) && !Covers(host, middle, middle.fields[ENABLED]))
    ensures !Chains(host, middle)
  {
    IncludesItself(host, middle);
    if VALUE in middle.fields {
      var requested := ListWithin(host, middle);
      var actual := Obj(map[ENABLED := middle]);
      assert ENABLED[0] != VALUE[0];
      ObjectIncludes(host, actual.fields, middle);
      ObjectIncludes(host, actual.fields, requested);
      assert Includes(host, actual, middle) && Includes(host, middle, requested) && !Includes(host, actual, requested);
    } else {
      var requested := Uncovered(host, middle, middle.fields[ENABLED]);
      ObjectIncludes(host, middle.fields, requested);
      ValueKeyKeepsExactly(host, middle.fields, requested);
      var x :| !IncludesWith(host, middle.fields, x, requested);
      var actual := Obj(middle.fields[VALUE := x]);
      forall key | key in middle.fields ensures Includes(host, actual.fields[key], middle.fields[key]) {
        IncludesItself(host, middle.fields[key]);
      }
      ObjectIncludes(host, actual.fields, middle);
      assert Includes(host, actual, middle) && Includes(host, middle, requested) && !Includes(host, actual, requested);
    }
  }

  lemma {:induction false} ListWithin(host: Host, v: Json) returns (list: Json)
    requires LeadsToList(v)
    ensures list.Arr? && Includes(host, v, list)
  {
    if v.Arr? {
      list := v;
      IncludesItself(host, v);
    } else {
      list := ListWithin(host, v.fields[VALUE]);
      ObjectIncludes(host, v.fields, list);
    }
  }

  /** Inclusion chains through a value and through all its parts exactly when the value is straight. */
  lemma {:induction false} ChainsExactly(host: Host, middle: Json)
    ensures ChainsThroughout(host, middle) <==> Straight(host, middle)
    decreases middle
  {
    match middle {
      case Arr(items) =>
        forall i | 0 <= i < |items| ensures ChainsThroughout(host, items[i]) <==> Straight(host, items[i]) {
          ChainsExactly(host, items[i]);
        }
      case Obj(fields) =>
        forall key | key in fields ensures ChainsThroughout(host, fields[key]) <==> Straight(host, fields[key]) {
          ChainsExactly(host, fields[key]);
        }
      case _ =>
    }
    if Straight(host, middle) {
      forall actual, requested | Includes(host, actual, middle) && Includes(host, middle, requested) ensures Includes(host, actual, requested) {
        StraightChains(host, actual, middle, requested);
      }
    } else if middle.Obj? && forall key :: key in middle.fields ==> Straight(host, middle.fields[key]) {
      NotStraightBreaks(host, middle);
    }
  }

  /** No object has a key `value` or `enabled`, at any depth. */
  predicate WithoutWrappers(v: Json) {
    match v
    case Arr(items) => forall i :: 0 <= i < |items| ==> WithoutWrappers(items[i])
    case Obj(fields) => VALUE !in fields && ENABLED !in fields && forall key :: key in fields ==> WithoutWrappers(fields[key])
    case _ => true
  }

  lemma {:induction false} WithoutWrappersIsStraight(host: Host, v: Json)
    requires WithoutWrappers(v)
    ensures Straight(host, v)
    decreases v
  {
    match v
    case Arr(items) =>
      forall i | 0 <= i < |items| ensures Straight(host, items[i]) {
        WithoutWrappersIsStraight(host, items[i]);
      }
    case Obj(fields) =>
      forall key | key in fields ensures Straight(host, fields[key]) {
        WithoutWrappersIsStraight(host, fields[key]);
      }
    case _ =>
  }
}
