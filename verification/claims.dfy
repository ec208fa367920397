/** Token claims and the username derived from them
    (`parse_principal_name` and the claim-priority expression of
    `get_entra_conninfo`). */
module Claims {
  import opened Wrappers
  import opened Errors
  import Text

  /** A Python value as far as this code inspects it: `None`, a `str`, a
      `dict` with string keys (a decoded JSON object, or keyword arguments),
      or any other value, of which only its truthiness matters here. */
  datatype Value =
    | Null
    | Str(s: string)
    | Dict(entries: map<string, Value>)
    | Other(truthy: bool)

  /** Python's `bool(v)`. */
  predicate Truthy(v: Value)
  {
    match v
    case Null => false
    case Str(s) => |s| > 0
    case Dict(m) => |m| > 0
    case Other(t) => t
  }

  /** The falsy values are exactly `None`, the empty `str`, the empty `dict`
      and the falsy others. */
  lemma FalsyValues(v: Value)
    ensures !Truthy(v) <==> v == Null || v == Str("") || v == Dict(map[]) || v == Other(false)
  {
    if v.Dict? && |v.entries| == 0 {
      assert v.entries == map[];
    }
  }

  /** `d.get(key)` on a `dict`: the entry, or `None` when the key is absent. */
  function Lookup(m: map<string, Value>, key: string): (v: Value)
    ensures key in m ==> v == m[key]
    ensures key !in m ==> v == Null && !Truthy(v)
  {
    if key in m then m[key] else Null
  }

  /** `get` after an assignment `d[k] = x` or a `pop(k)`: the key written
      reads back what was written, every other key reads as before. */
  lemma LookupAfterUpdate(m: map<string, Value>, k: string, x: Value, key: string)
    ensures Lookup(m[k := x], key) == if key == k then x else Lookup(m, key)
    ensures Lookup(m - {k}, key) == if key == k then Null else Lookup(m, key)
  {
  }

  /** The lower-case ending an `xms_mirid` resource path must have before its
      last `/` to name a user-assigned managed identity:
      `providers/microsoft.managedidentity/userassignedidentities`, written in
      pieces that lemmas can lower-case one at a time. */
  const IdentityPathSuffix: string := "providers/" + "microsoft." + "managedidentity/" + "userassignedidentities"

  /** `parse_principal_name` on a `str`: the text after the last `/`, when it
      is non-empty and the text before it ends, ignoring case, with
      `IdentityPathSuffix`; `None` otherwise. */
  function ParsePrincipalName(mirid: string): (r: Option<string>)
    ensures |mirid| == 0 || '/' !in mirid ==> r == None
    ensures r.Some? ==> 0 < |r.value| < |mirid| && '/' !in r.value
    ensures r.Some? ==>
      var prefix := mirid[..|mirid| - |r.value| - 1];
      mirid == prefix + "/" + r.value && Text.EndsWith(Text.Lower(prefix), IdentityPathSuffix)
  {
    if |mirid| == 0 then None
    else
      var slash := Text.RFind(mirid, '/');
      if slash == -1 then None
      else
        var beginning := mirid[..slash];
        var principalName := mirid[slash + 1..];
        if |principalName| == 0 || !Text.EndsWith(Text.Lower(beginning), IdentityPathSuffix) then None
        else
          assert mirid == beginning + "/" + principalName;
          Some(principalName)
  }

  /** Every path splits at its last `/`, so this fixes `ParsePrincipalName`
      on every input that has a `/`: it returns the last segment exactly when
      that segment is non-empty and the rest ends with the identity suffix. */
  lemma ParsePrincipalNameSplit(prefix: string, name: string)
    requires '/' !in name
    ensures ParsePrincipalName(prefix + "/" + name)
      == if |name| > 0 && Text.EndsWith(Text.Lower(prefix), IdentityPathSuffix) then Some(name) else None
  {
    var s := prefix + "/" + name;
    Text.RFindLast(prefix, '/', name);
    assert s[..|prefix|] == prefix;
    assert s[|prefix| + 1..] == name;
  }

  /** The identity segments as the source's comment writes them,
      `providers/Microsoft.ManagedIdentity/userAssignedIdentities`; they are
      kept in four pieces so that each piece can be lower-cased on its own. */
  const DocumentedSegments: string := "providers/" + "Microsoft." + "ManagedIdentity/" + "userAssignedIdentities"

  /** In mixed case as documented, the segments lower-case to the suffix. */
  lemma MixedCaseSuffix()
    ensures Text.Lower(DocumentedSegments) == IdentityPathSuffix
  {
    var t0, t1, t2, t3 := "providers/", "Microsoft.", "ManagedIdentity/", "userAssignedIdentities";
    assert Text.Lower(t0) == "providers/";
    assert Text.Lower(t1) == "microsoft.";
    assert Text.Lower(t2) == "managedidentity/";
    assert Text.Lower(t3) == "userassignedidentities";
    Text.LowerAppend(t0, t1);
    Text.LowerAppend(t0 + t1, t2);
    Text.LowerAppend(t0 + t1 + t2, t3);
  }

  /** The resource path shown in the source's comment,
      `/subscriptions/{subId}/resourcegroups/{resourceGroup}/providers/Microsoft.ManagedIdentity/userAssignedIdentities/{principalName}`,
      yields the placeholder that stands for the principal name; the suffix
      check ignores case. */
  lemma DocumentedPathExample()
    ensures ParsePrincipalName(
      "/subscriptions/{subId}/resourcegroups/{resourceGroup}/" + DocumentedSegments + "/" + "{principalName}")
      == Some("{principalName}")
  {
    var front := "/subscriptions/{subId}/resourcegroups/{resourceGroup}/";
    MixedCaseSuffix();
    Text.EndsWithLower(front, DocumentedSegments);
    ParsePrincipalNameSplit(front + DocumentedSegments, "{principalName}");
  }

  /** `parse_principal_name(claims.get("xms_mirid"))` on any claim value: a
      falsy value gives `None`, a string is parsed, and any other truthy value
      raises because it has no `rfind`. */
  function PrincipalOfClaim(mirid: Value): (r: Result<Option<string>, Error>)
    ensures r.Err? <==> Truthy(mirid) && !mirid.Str?
    ensures r.Err? ==> r.error == MiridNotString
    ensures !Truthy(mirid) ==> r == Ok(None)
    ensures mirid.Str? && Truthy(mirid) ==> r == Ok(ParsePrincipalName(mirid.s))
  {
    if !Truthy(mirid) then Ok(None)
    else if mirid.Str? then Ok(ParsePrincipalName(mirid.s))
    else Err(MiridNotString)
  }

  /** `None` for a missing principal name, the name as a `str` otherwise. */
  function OptionValue(o: Option<string>): Value
  {
    if o.Some? then Str(o.value) else Null
  }

  /** Python's `a or b`. */
  function Or(a: Value, b: Value): Value
  {
    if Truthy(a) then a else b
  }

  /** The four candidates for the username, in priority order. */
  function Candidates(principal: Option<string>, m: map<string, Value>): seq<Value>
  {
    [OptionValue(principal), Lookup(m, "upn"), Lookup(m, "preferred_username"), Lookup(m, "unique_name")]
  }

  /** The username expression of `get_entra_conninfo` on decoded claims:
      the first truthy value among the parsed `xms_mirid`, `upn`,
      `preferred_username` and `unique_name`, or the last of them when none is
      truthy. It raises when the claims are not a JSON object or when
      `xms_mirid` is a truthy non-string. */
  function Username(claims: Value): (r: Result<Value, Error>)
    ensures !claims.Dict? ==> r == Err(ClaimsNotObject)
    ensures claims.Dict? ==> (r.Err? <==> PrincipalOfClaim(Lookup(claims.entries, "xms_mirid")).Err?)
    ensures r.Ok? ==> var c := Candidates(PrincipalOfClaim(Lookup(claims.entries, "xms_mirid")).value, claims.entries);
      && (Truthy(r.value) <==> exists i :: 0 <= i < 4 && Truthy(c[i]))
      && (Truthy(r.value) ==> exists i :: 0 <= i < 4 && r.value == c[i] && forall j :: 0 <= j < i ==> !Truthy(c[j]))
  {
    if !claims.Dict? then Err(ClaimsNotObject)
    else
      var m := claims.entries;
      var principal :- PrincipalOfClaim(Lookup(m, "xms_mirid"));
      var c := Candidates(principal, m);
      Ok(Or(Or(Or(c[0], c[1]), c[2]), c[3]))
  }

  /** The priority order stated claim by claim: a managed-identity name wins
      over everything else, and each later claim is used only when all
      earlier ones are missing, `None` or empty. */
  lemma UsernamePriority(m: map<string, Value>)
    requires PrincipalOfClaim(Lookup(m, "xms_mirid")).Ok?
    ensures var p := PrincipalOfClaim(Lookup(m, "xms_mirid")).value;
      var u := Username(Dict(m)).value;
      && Username(Dict(m)).Ok?
      && (p.Some? ==> u == Str(p.value))
      && (p.None? && Truthy(Lookup(m, "upn")) ==> u == m["upn"])
      && ((p.None? && !Truthy(Lookup(m, "upn")) && Truthy(Lookup(m, "preferred_username")))
            ==> u == m["preferred_username"])
      && ((p.None? && !Truthy(Lookup(m, "upn")) && !Truthy(Lookup(m, "preferred_username")))
            ==> u == Lookup(m, "unique_name"))
  {
  }
}
