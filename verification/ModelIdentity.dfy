/** When two collection ids name the same collection. */
module ModelIdentity {
  import opened Wrappers

  type Trim = string -> string

  predicate IsHexDigit(c: char) {
    '0' <= c <= '9' || 'a' <= c <= 'f' || 'A' <= c <= 'F'
  }

  predicate IsDash(i: nat) {
    i == 8 || i == 13 || i == 18 || i == 23
  }

  predicate IsBareUuid(s: string) {
    |s| == 36 && forall i :: 0 <= i < 36 ==> if IsDash(i) then s[i] == '-' else IsHexDigit(s[i])
  }

  /** A numeric owner, a dash and a bare id. */
  predicate IsPublicUid(s: string) {
    && |s| > 37
    && (forall i :: 0 <= i < |s| - 37 ==> '0' <= s[i] <= '9')
    && s[|s| - 37] == '-'
    && IsBareUuid(s[|s| - 36..])
  }

  function LowerChar(c: char): char {
    if 'A' <= c <= 'Z' then c - 'A' + 'a' else c
  }

  function Lower(s: string): (r: string)
    ensures |r| == |s| && forall i :: 0 <= i < |s| ==> r[i] == LowerChar(s[i])
  {
    if s == "" then "" else Lower(s[..|s| - 1]) + [LowerChar(s[|s| - 1])]
  }

  function Normalize(trim: Trim, value: string): string {
    var id := trim(value);
    if IsBareUuid(id) then Lower(id)
    else if IsPublicUid(id) then Lower(id[|id| - 36..])
    else id
  }

  /** Trimming takes white space only, and ids have none. */
  ghost predicate TrimsSpace(trim: Trim) {
    && (forall s :: trim(trim(s)) == trim(s))
    && (forall s :: IsBareUuid(s) || IsPublicUid(s) ==> trim(s) == s)
  }

  /** The id shared by a bare id and its public forms. */
  function UuidOf(id: string): Option<string> {
    if IsBareUuid(id) then Some(Lower(id)) else if IsPublicUid(id) then Some(Lower(id[|id| - 36..])) else None
  }

  /** So many hexadecimal digits, of either case. */
  predicate HexText(s: string, n: nat) {
    |s| == n && forall i :: 0 <= i < n ==> 48 <= s[i] as int <= 57 || 65 <= s[i] as int <= 70 || 97 <= s[i] as int <= 102
  }

  ghost predicate InGroups(s: string, a: string, b: string, c: string, d: string, e: string) {
    && HexText(a, 8) && HexText(b, 4) && HexText(c, 4) && HexText(d, 4) && HexText(e, 12)
    && s == a + "-" + b + "-" + c + "-" + d + "-" + e
  }

  /** A bare id is five groups of hexadecimal digits with dashes between them. */
  lemma BareUuidSpelled(s: string)
    ensures IsBareUuid(s) <==> exists a, b, c, d, e :: InGroups(s, a, b, c, d, e)
  {
    if IsBareUuid(s) {
      var a, b, c, d, e := s[..8], s[9..13], s[14..18], s[19..23], s[24..];
      assert s[8] == s[13] == s[18] == s[23] == '-';
      assert s == a + "-" + b + "-" + c + "-" + d + "-" + e;
      assert InGroups(s, a, b, c, d, e);
    }
    if a, b, c, d, e :| InGroups(s, a, b, c, d, e) {
      forall i | 0 <= i < 36 ensures if IsDash(i) then s[i] == '-' else IsHexDigit(s[i]) {
        GroupOf(s, a, b, c, d, e, i);
      }
    }
  }

  lemma GroupOf(s: string, a: string, b: string, c: string, d: string, e: string, i: nat)
    requires i < 36 && InGroups(s, a, b, c, d, e)
    ensures |s| == 36
    ensures if IsDash(i) then s[i] == '-' else 48 <= s[i] as int <= 57 || 65 <= s[i] as int <= 70 || 97 <= s[i] as int <= 102
  {
    assert s[i] == if i < 8 then a[i] else if IsDash(i) then '-' else if i < 13 then b[i - 9] else if i < 18 then c[i - 14]
                   else if i < 23 then d[i - 19] else e[i - 24];
  }

  ghost predicate OwnedBy(s: string, owner: string, uuid: string) {
    s == owner + "-" + uuid && owner != "" && IsBareUuid(uuid) && forall i :: 0 <= i < |owner| ==> 48 <= owner[i] as int <= 57
  }

  /** A public id is an owner's number, a dash and a bare id. */
  lemma PublicUidSpelled(s: string)
    ensures IsPublicUid(s) <==> exists owner, uuid :: OwnedBy(s, owner, uuid)
  {
    if IsPublicUid(s) {
      var owner, uuid := s[..|s| - 37], s[|s| - 36..];
      assert s == owner + "-" + uuid;
      assert OwnedBy(s, owner, uuid);
    }
    if owner, uuid :| OwnedBy(s, owner, uuid) {
      assert |s| - 37 == |owner| && s[|owner|] == '-' && s[|s| - 36..] == uuid;
      assert forall i :: 0 <= i < |owner| ==> s[i] == owner[i];
    }
  }

  /** Lower case is capital letters 32 places on, and every other character as it is. */
  lemma LowerExactly(c: char)
    ensures LowerChar(c) as int == c as int + if 65 <= c as int <= 90 then 32 else 0
  {
  }

  lemma LowerIsBare(s: string)
    requires IsBareUuid(s)
    ensures IsBareUuid(Lower(s)) && Lower(Lower(s)) == Lower(s)
  {
  }

  /** Normalizing twice is normalizing once. */
  lemma NormalizeIsIdempotent(trim: Trim, value: string)
    requires TrimsSpace(trim)
    ensures Normalize(trim, Normalize(trim, value)) == Normalize(trim, value)
  {
    var id := trim(value);
    if IsBareUuid(id) {
      LowerIsBare(id);
    } else if IsPublicUid(id) {
      LowerIsBare(id[|id| - 36..]);
    }
  }

  /** Ids are taken for one another exactly when they are the same text or name the same UUID. */
  lemma ConflatesExactly(trim: Trim, a: string, b: string)
    requires TrimsSpace(trim)
    ensures Normalize(trim, a) == Normalize(trim, b)
            <==> trim(a) == trim(b) || (UuidOf(trim(a)).Some? && UuidOf(trim(a)) == UuidOf(trim(b)))
  {
    NormalizedIsUuid(trim(a));
    NormalizedIsUuid(trim(b));
  }

  lemma NormalizedIsUuid(id: string)
    ensures UuidOf(id).Some? ==> IsBareUuid(UuidOf(id).value)
    ensures UuidOf(id).None? ==> !IsBareUuid(id)
  {
    if IsBareUuid(id) {
      LowerIsBare(id);
    } else if IsPublicUid(id) {
      LowerIsBare(id[|id| - 36..]);
    }
  }

  /** The public form of a collection is the collection. */
  lemma PublicIsBare(trim: Trim, owner: string, uuid: string)
    requires TrimsSpace(trim) && owner != "" && (forall i :: 0 <= i < |owner| ==> '0' <= owner[i] <= '9') && IsBareUuid(uuid)
    ensures Normalize(trim, owner + "-" + uuid) == Normalize(trim, uuid) == Lower(uuid)
  {
    hide Lower;
    var id := owner + "-" + uuid;
    assert |id| - 37 == |owner| && id[|owner|] == '-' && forall i :: 0 <= i < |owner| ==> id[i] == owner[i];
    assert id[|id| - 36..] == uuid;
  }
}
