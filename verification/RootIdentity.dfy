/** The identifier of a convergent root: what it is a hash of, and the shape it is given. */
module RootIdentity {
  import opened Wrappers
  import opened Text
  import opened Json
  import opened Receipt
  import opened ConvergentRoot
  import opened ModelIdentity

  /** The hash gives 32 bytes; `stringify` prints a list of JSON values; `trim` removes white space at both ends. */
  datatype Host = Host(parse: Parser, stringify: seq<Value> -> string, hash: string -> seq<bv8>, trim: string -> string)

  ghost predicate Hashes(host: Host) {
    forall text :: |host.hash(text)| == 32
  }

  // ---------- What is hashed ----------

  const NUL := 0 as char

  function Domain(): string { "postman-bootstrap:" + "collection-root:v1" }

  function Field(fields: map<string, Value>, name: string, missing: Value): Value {
    if name in fields then fields[name] else missing
  }

  /** Absent members print as null; an absent or null head repository prints as the empty text. */
  function MarkerText(host: Host, marker: Option<map<string, Value>>): string {
    match marker
    case None => "canonical"
    case Some(f) =>
      var head := Field(f, "headRepoId", Null);
      host.stringify([Field(f, "repo", Null), Field(f, "rawBranch", Null), Field(f, "sanitizedBranch", Null), Field(f, "role", Null),
                      if head.Null? then Str("") else head])
  }

  function Preimage(workspace: string, name: string, marker: string): string {
    Domain() + [NUL] + workspace + [NUL] + name + [NUL] + marker
  }

  /** Workspaces and names without NUL cannot run together: equal hash inputs have equal fields. */
  lemma PreimageIsInjective(w: string, n: string, m: string, w': string, n': string, m': string)
    requires NUL !in w && NUL !in n && NUL !in w' && NUL !in n'
    requires Preimage(w, n, m) == Preimage(w', n', m')
    ensures w == w' && n == n' && m == m'
  {
    var d := Domain() + [NUL];
    assert Preimage(w, n, m) == d + (w + [NUL] + (n + [NUL] + m));
    assert Preimage(w', n', m') == d + (w' + [NUL] + (n' + [NUL] + m'));
    assert w + [NUL] + (n + [NUL] + m) == Preimage(w, n, m)[|d|..];
    assert w' + [NUL] + (n' + [NUL] + m') == Preimage(w', n', m')[|d|..];
    SplitAtFirst(w, NUL, n + [NUL] + m, w', n' + [NUL] + m');
    SplitAtFirst(n, NUL, m, n', m');
  }

  // ---------- Version and variant ----------

  function Stamped(bytes: seq<bv8>): seq<bv8>
    requires |bytes| == 16
  {
    bytes[6 := (bytes[6] & 0x0f) | 0x50][8 := (bytes[8] & 0x3f) | 0x80]
  }

  method Stamp(bytes: array<bv8>)
    requires bytes.Length == 16
    modifies bytes
    ensures bytes[..] == Stamped(old(bytes[..]))
  {
    bytes[6] := (bytes[6] & 0x0f) | 0x50;
    bytes[8] := (bytes[8] & 0x3f) | 0x80;
  }

  /** Version 5 and the variant of RFC 9562, section 4.1; every other bit is that of the hash. */
  lemma StampSetsSixBits(bytes: seq<bv8>)
    requires |bytes| == 16
    ensures var s := Stamped(bytes);
            && |s| == 16
            && s[6] >> 4 == 5 && s[6] & 0x0f == bytes[6] & 0x0f
            && s[8] >> 6 == 2 && s[8] & 0x3f == bytes[8] & 0x3f
            && (forall i :: 0 <= i < 16 && i != 6 && i != 8 ==> s[i] == bytes[i])
            && Stamped(s) == s
  {
    var s := Stamped(bytes);
    assert s[6] == (bytes[6] & 0x0f) | 0x50 && s[8] == (bytes[8] & 0x3f) | 0x80;
    StampByte(bytes[6], bytes[8]);
    assert Stamped(s)[6] == s[6] && Stamped(s)[8] == s[8];
  }

  lemma StampByte(a: bv8, b: bv8)
    ensures ((a & 0x0f) | 0x50) >> 4 == 5 && ((a & 0x0f) | 0x50) & 0x0f == a & 0x0f
    ensures ((b & 0x3f) | 0x80) >> 6 == 2 && ((b & 0x3f) | 0x80) & 0x3f == b & 0x3f
  {
  }

  // ---------- Text of an identifier ----------

  function Digit(nibble: bv8): char
  {
    match nibble
    case 0 => '0' case 1 => '1' case 2 => '2' case 3 => '3' case 4 => '4' case 5 => '5' case 6 => '6' case 7 => '7'
    case 8 => '8' case 9 => '9' case 10 => 'a' case 11 => 'b' case 12 => 'c' case 13 => 'd' case 14 => 'e' case _ => 'f'
  }

  function Hex(bytes: seq<bv8>): (r: string)
    ensures |r| == 2 * |bytes|
    ensures forall i :: 0 <= i < |bytes| ==> r[2 * i] == Digit(bytes[i] >> 4) && r[2 * i + 1] == Digit(bytes[i] & 0x0f)
  {
    if bytes == [] then ""
    else
      var n := |bytes| - 1;
      Hex(bytes[..n]) + [Digit(bytes[n] >> 4), Digit(bytes[n] & 0x0f)]
  }

  function Dashed(hex: string): string
    requires |hex| == 32
  {
    hex[0..8] + "-" + hex[8..12] + "-" + hex[12..16] + "-" + hex[16..20] + "-" + hex[20..]
  }

  /** What is hashed for a description. */
  function HashInput(host: Host, workspaceId: string, finalName: string, description: string): string {
    Preimage(host.trim(workspaceId), host.trim(finalName), MarkerText(host, LogicalMarker(host.parse, description)))
  }

  function RootIdentity(host: Host, workspaceId: string, finalName: string, description: string): Option<string>
    requires Hashes(host)
  {
    if host.trim(workspaceId) == "" || host.trim(finalName) == "" then None
    else
      var bytes := host.hash(HashInput(host, workspaceId, finalName, description))[..16];
      Some(Dashed(Hex(Stamped(bytes))))
  }

  method ConvergentCollectionRootIdentity(host: Host, workspaceId: string, finalName: string, description: string) returns (id: Option<string>)
    requires Hashes(host)
    ensures id == RootIdentity(host, workspaceId, finalName, description)
  {
    var workspace, name := host.trim(workspaceId), host.trim(finalName);
    if workspace == "" || name == "" {
      return None;
    }
    var marker := LogicalAssetMarker(host.parse, description);
    var digest := host.hash(Preimage(workspace, name, MarkerText(host, marker)));
    var bytes := new bv8[16](i requires 0 <= i < 16 => digest[i]);
    assert bytes[..] == digest[..16];
    Stamp(bytes);
    id := Some(Dashed(Hex(bytes[..])));
  }

  /** The root of a description with a receipt rendered here is that of the description without one. */
  lemma ReceiptsKeepTheRoot(host: Host, workspaceId: string, finalName: string, text: string, digest: string)
    requires Hashes(host) && Facts(host.parse) && Render(host.parse, Written(text), digest).Success?
    ensures var rendered := Render(host.parse, Written(text), digest).value;
            && RootIdentity(host, workspaceId, finalName, rendered)
               == RootIdentity(host, workspaceId, finalName, Strip(host.parse, text).value)
            && (ParseReceipt(host.parse, text) == Success(None) ==>
                  RootIdentity(host, workspaceId, finalName, rendered) == RootIdentity(host, workspaceId, finalName, text))
  {
    RenderKeepsMarker(host.parse, Strip(host.parse, text).value, digest);
  }

  /** What a receipt on the text does not move: the text has a marker in front of it, or the receipt spells none. */
  predicate KeepsMarker(parse: Parser, text: string) {
    match ParseReceipt(parse, text)
    case Success(Some(_)) =>
      var s := ReceiptSuffix(text).value.value;
      Contains(s.base, Marker()) || LogicalMarker(parse, s.payload).None?
    case _ => true
  }

  /**
   Replacing a receipt that some program has written keeps what is hashed, and so the root, exactly when the
   text has a marker in front of the receipt or the receipt spells none.
   */
  lemma ReplacingKeepsTheRootExactly(host: Host, workspaceId: string, finalName: string, text: string, digest: string)
    requires Hashes(host) && Facts(host.parse) && Render(host.parse, Written(text), digest).Success?
    requires forall items :: host.stringify(items) != "canonical"
    ensures var rendered := Render(host.parse, Written(text), digest).value;
            && (HashInput(host, workspaceId, finalName, rendered) == HashInput(host, workspaceId, finalName, text) <==> KeepsMarker(host.parse, text))
            && (KeepsMarker(host.parse, text) ==>
                  RootIdentity(host, workspaceId, finalName, rendered) == RootIdentity(host, workspaceId, finalName, text))
  {
    hide RootIdentity, LogicalMarker, ReceiptSuffix, Render, Marker;
    RenderedMarker(host.parse, text, digest);
    var w, n := host.trim(workspaceId), host.trim(finalName);
    var rendered := Render(host.parse, Written(text), digest).value;
    var now, was := MarkerText(host, LogicalMarker(host.parse, rendered)), MarkerText(host, LogicalMarker(host.parse, text));
    if Preimage(w, n, now) == Preimage(w, n, was) {
      SameMarkerText(w, n, now, was);
    }
    if KeepsMarker(host.parse, text) {
      SameMarkerSameRoot(host, workspaceId, finalName, rendered, text);
    }
  }

  lemma RenderedMarker(parse: Parser, text: string, digest: string)
    requires Facts(parse) && Render(parse, Written(text), digest).Success?
    ensures var marker := LogicalMarker(parse, Render(parse, Written(text), digest).value);
            && (marker == LogicalMarker(parse, text) <==> KeepsMarker(parse, text))
            && (!KeepsMarker(parse, text) ==> marker.None?)
  {
    hide LogicalMarker, ReceiptSuffix, Marker;
    RenderKeepsMarker(parse, Strip(parse, text).value, digest);
    if ParseReceipt(parse, text).value.Some? {
      StripKeepsMarkerExactly(parse, text);
      if !KeepsMarker(parse, text) {
        AbsentMarker(parse, ReceiptSuffix(text).value.value.base);
      }
    }
  }

  lemma SameMarkerText(w: string, n: string, m: string, m': string)
    requires Preimage(w, n, m) == Preimage(w, n, m')
    ensures m == m'
  {
    var front := Domain() + [NUL] + w + [NUL] + n + [NUL];
    assert Preimage(w, n, m)[|front|..] == m && Preimage(w, n, m')[|front|..] == m';
  }

  lemma SameMarkerSameRoot(host: Host, workspaceId: string, finalName: string, a: string, b: string)
    requires Hashes(host) && LogicalMarker(host.parse, a) == LogicalMarker(host.parse, b)
    ensures RootIdentity(host, workspaceId, finalName, a) == RootIdentity(host, workspaceId, finalName, b)
  {
    hide LogicalMarker;
  }

  // ---------- The shape ----------

  lemma DigitFacts(n: bv8)
    requires n < 16
    ensures IsHexDigit(Digit(n)) && LowerChar(Digit(n)) == Digit(n)
  {
  }

  lemma HexDigits(bytes: seq<bv8>)
    ensures forall i :: 0 <= i < |Hex(bytes)| ==> IsHexDigit(Hex(bytes)[i]) && LowerChar(Hex(bytes)[i]) == Hex(bytes)[i]
  {
    forall i | 0 <= i < |Hex(bytes)| ensures IsHexDigit(Hex(bytes)[i]) && LowerChar(Hex(bytes)[i]) == Hex(bytes)[i] {
      var b := bytes[i / 2];
      DigitFacts(b >> 4);
      DigitFacts(b & 0x0f);
      assert i == 2 * (i / 2) || i == 2 * (i / 2) + 1;
    }
  }

  lemma DashedShape(hex: string)
    requires |hex| == 32 && forall i :: 0 <= i < 32 ==> IsHexDigit(hex[i]) && LowerChar(hex[i]) == hex[i]
    ensures IsBareUuid(Dashed(hex)) && Lower(Dashed(hex)) == Dashed(hex)
    ensures Dashed(hex)[14] == hex[12] && Dashed(hex)[19] == hex[16]
  {
  }

  /** A root is addressed by a bare lower-case UUID of version 5 and that variant, which is its own model identity. */
  lemma IdentityShape(host: Host, workspaceId: string, finalName: string, description: string)
    requires Hashes(host) && TrimsSpace(host.trim) && RootIdentity(host, workspaceId, finalName, description).Some?
    ensures var id := RootIdentity(host, workspaceId, finalName, description).value;
            && IsBareUuid(id) && Normalize(host.trim, id) == id
            && id[14] == '5' && id[19] in ['8', '9', 'a', 'b']
  {
    var workspace, name := host.trim(workspaceId), host.trim(finalName);
    var bytes := host.hash(Preimage(workspace, name, MarkerText(host, LogicalMarker(host.parse, description))))[..16];
    var s := Stamped(bytes);
    StampSetsSixBits(bytes);
    HexDigits(s);
    DashedShape(Hex(s));
    assert Hex(s)[2 * 6] == Digit(s[6] >> 4) && Hex(s)[2 * 8] == Digit(s[8] >> 4);
    VariantDigit(s[8]);
  }

  lemma VariantDigit(b: bv8)
    requires b >> 6 == 2
    ensures Digit(b >> 4) in ['8', '9', 'a', 'b']
  {
    assert b >> 4 == 8 || b >> 4 == 9 || b >> 4 == 10 || b >> 4 == 11;
  }

  lemma DigitIsInjective(m: bv8, n: bv8)
    requires m < 16 && n < 16 && Digit(m) == Digit(n)
    ensures m == n
  {
  }

  /** Different stamped bytes give different identifiers. */
  lemma TextIsInjective(a: seq<bv8>, b: seq<bv8>)
    requires |a| == 16 && |b| == 16 && Dashed(Hex(a)) == Dashed(Hex(b))
    ensures a == b
  {
    DashedIsInjective(Hex(a), Hex(b));
    forall i | 0 <= i < 16 ensures a[i] == b[i] {
      assert Hex(a)[2 * i] == Hex(b)[2 * i] && Hex(a)[2 * i + 1] == Hex(b)[2 * i + 1];
      DigitIsInjective(a[i] >> 4, b[i] >> 4);
      DigitIsInjective(a[i] & 0x0f, b[i] & 0x0f);
      Nibbles(a[i], b[i]);
    }
  }

  lemma Nibbles(a: bv8, b: bv8)
    requires a >> 4 == b >> 4 && a & 0x0f == b & 0x0f
    ensures a == b
  {
  }

  lemma DashedIsInjective(g: string, h: string)
    requires |g| == 32 && |h| == 32 && Dashed(g) == Dashed(h)
    ensures g == h
  {
    var d, e := Dashed(g), Dashed(h);
    forall i | 0 <= i < 32 ensures g[i] == h[i] {
      var k := if i < 8 then i else if i < 12 then i + 1 else if i < 16 then i + 2 else if i < 20 then i + 3 else i + 4;
      assert d[k] == g[i] && e[k] == h[i];
    }
  }

  // ---------- What the root depends on ----------

  /** An absent part counts as null. */
  function Part(marker: map<string, Value>, name: string): Value {
    if name in marker then marker[name] else Null
  }

  /** Two descriptions are of one asset: neither has a marker, or the markers agree on the five parts. */
  predicate SameAsset(a: Option<map<string, Value>>, b: Option<map<string, Value>>) {
    if a.None? || b.None? then a.None? && b.None?
    else
      && Part(a.value, "repo") == Part(b.value, "repo")
      && Part(a.value, "rawBranch") == Part(b.value, "rawBranch")
      && Part(a.value, "sanitizedBranch") == Part(b.value, "sanitizedBranch")
      && Part(a.value, "role") == Part(b.value, "role")
      && (Part(a.value, "headRepoId") == Part(b.value, "headRepoId")
          || (Part(a.value, "headRepoId") in [Null, Str("")] && Part(b.value, "headRepoId") in [Null, Str("")]))
  }

  ghost predicate PrintsApart(host: Host) {
    && (forall a, b :: host.stringify(a) == host.stringify(b) ==> a == b)
    && (forall items :: host.stringify(items) != "canonical")
  }

  lemma MarkerTextsAgree(host: Host, a: Option<map<string, Value>>, b: Option<map<string, Value>>)
    requires PrintsApart(host)
    ensures MarkerText(host, a) == MarkerText(host, b) <==> SameAsset(a, b)
  {
    if a.Some? && b.Some? {
      var l, m := Parts(a.value), Parts(b.value);
      assert MarkerText(host, a) == host.stringify(l) && MarkerText(host, b) == host.stringify(m);
      assert l == m <==> l[0] == m[0] && l[1] == m[1] && l[2] == m[2] && l[3] == m[3] && l[4] == m[4];
    }
  }

  /** The values of a marker that are printed. */
  function Parts(marker: map<string, Value>): seq<Value> {
    [Part(marker, "repo"), Part(marker, "rawBranch"), Part(marker, "sanitizedBranch"), Part(marker, "role"),
     if Part(marker, "headRepoId").Null? then Str("") else Part(marker, "headRepoId")]
  }

  /** The same is hashed for two descriptions exactly when workspace, name and asset are the same. */
  lemma HashInputExactly(host: Host, workspace: string, name: string, text: string, workspace': string, name': string, text': string)
    requires PrintsApart(host)
    requires NUL !in host.trim(workspace) && NUL !in host.trim(name) && NUL !in host.trim(workspace') && NUL !in host.trim(name')
    ensures HashInput(host, workspace, name, text) == HashInput(host, workspace', name', text')
            <==> && host.trim(workspace) == host.trim(workspace') && host.trim(name) == host.trim(name')
                 && SameAsset(LogicalMarker(host.parse, text), LogicalMarker(host.parse, text'))
  {
    hide MarkerText, LogicalMarker, SameAsset, Preimage, PrintsApart;
    var m, m' := LogicalMarker(host.parse, text), LogicalMarker(host.parse, text');
    MarkerTextsAgree(host, m, m');
    if HashInput(host, workspace, name, text) == HashInput(host, workspace', name', text') {
      PreimageIsInjective(host.trim(workspace), host.trim(name), MarkerText(host, m),
                          host.trim(workspace'), host.trim(name'), MarkerText(host, m'));
    }
  }

  /** What is hashed, place by place: the domain, the workspace, the name and the marker's parts, a zero between each two. */
  lemma HashInputSpelled(host: Host, workspace: string, name: string, text: string)
    ensures var input, w, n := HashInput(host, workspace, name, text), host.trim(workspace), host.trim(name);
            var marker := LogicalMarker(host.parse, text);
            && |input| >= 39 + |w| + |n|
            && input[..18] == "postman-bootstrap:" && input[18..36] == "collection-root:v1"
            && input[36] == 0 as char && input[37 + |w|] == 0 as char && input[38 + |w| + |n|] == 0 as char
            && input[37..37 + |w|] == w && input[38 + |w|..38 + |w| + |n|] == n
            && input[39 + |w| + |n|..] == if marker.Some? then host.stringify(Parts(marker.value)) else "canonical"
  {
    hide LogicalMarker;
    var w, n := host.trim(workspace), host.trim(name);
    var m := MarkerText(host, LogicalMarker(host.parse, text));
    var d := Domain();
    assert d[..18] == "postman-bootstrap:" && d[18..] == "collection-root:v1" && |d| == 36;
    PreimageSpelled(d, w, n, m);
  }

  lemma PreimageSpelled(d: string, w: string, n: string, m: string)
    requires d == Domain() && |d| == 36
    ensures var input := Preimage(w, n, m);
            && |input| == 39 + |w| + |n| + |m| && input[..36] == d
            && input[36] == 0 as char && input[37 + |w|] == 0 as char && input[38 + |w| + |n|] == 0 as char
            && input[37..37 + |w|] == w && input[38 + |w|..38 + |w| + |n|] == n && input[39 + |w| + |n|..] == m
  {
  }

  /** The identifier spells the stamped bytes of the hash: the groups together are its digits, two for each byte. */
  lemma IdentitySpells(host: Host, workspaceId: string, finalName: string, description: string)
    requires Hashes(host)
    ensures RootIdentity(host, workspaceId, finalName, description).None? <==> host.trim(workspaceId) == "" || host.trim(finalName) == ""
    ensures RootIdentity(host, workspaceId, finalName, description).Some? ==>
              var id := RootIdentity(host, workspaceId, finalName, description).value;
              var bytes := Stamped(host.hash(HashInput(host, workspaceId, finalName, description))[..16]);
              && |id| == 36 && id[8] == '-' && id[13] == '-' && id[18] == '-' && id[23] == '-'
              && forall i :: 0 <= i < 16 ==>
                   Nibble(id[PlaceOf(i)]) == (bytes[i] >> 4) as int && Nibble(id[PlaceOf(i) + 1]) == (bytes[i] & 0x0f) as int
  {
    if RootIdentity(host, workspaceId, finalName, description).Some? {
      var bytes := Stamped(host.hash(HashInput(host, workspaceId, finalName, description))[..16]);
      DashedPlaces(Hex(bytes));
      forall i | 0 <= i < 16
        ensures Nibble(Digit(bytes[i] >> 4)) == (bytes[i] >> 4) as int && Nibble(Digit(bytes[i] & 0x0f)) == (bytes[i] & 0x0f) as int
      {
        DigitIsNibble(bytes[i] >> 4);
        DigitIsNibble(bytes[i] & 0x0f);
      }
    }
  }

  /** The value of a lower-case hexadecimal digit. */
  function Nibble(c: char): int {
    if '0' <= c <= '9' then c as int - '0' as int else if 'a' <= c <= 'f' then c as int - 'a' as int + 10 else -1
  }

  /** Where the two digits of a byte begin. */
  function PlaceOf(i: nat): nat {
    2 * i + (if i < 4 then 0 else if i < 6 then 1 else if i < 8 then 2 else if i < 10 then 3 else 4)
  }

  lemma DigitIsNibble(n: bv8)
    requires n < 16
    ensures Nibble(Digit(n)) == n as int
  {
  }

  lemma DashedPlaces(hex: string)
    requires |hex| == 32
    ensures var id := Dashed(hex);
            && |id| == 36 && id[8] == '-' && id[13] == '-' && id[18] == '-' && id[23] == '-'
            && forall i :: 0 <= i < 16 ==> id[PlaceOf(i)] == hex[2 * i] && id[PlaceOf(i) + 1] == hex[2 * i + 1]
  {
  }
}
