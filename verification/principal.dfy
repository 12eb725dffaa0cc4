/**
 This module models how the token endpoint resolves the caller's principal from the
 optional `x-ms-client-principal` header the hosting platform adds to each request.
 The header carries a base64-encoded JSON record. Decoding it is a library call, so
 here it is only an abstract decode result. The record's fields may be null, because
 a field missing from the JSON stays null. The resolver drops the "anonymous" role.
 When no role is left, it returns a principal with no identity. Otherwise it returns
 one identity carrying a subject claim, a name claim and one role claim per remaining
 role.
 */
module Principal {
  import opened CaseFold
  import opened RoleFilter

  /** A value that may be null, as every reference-typed field of the decoded record may be. */
  datatype Nullable<+T> = Null | NonNull(value: T)

  /** The record the header decodes to; a field absent from the JSON stays Null. */
  datatype ClientPrincipal = ClientPrincipal(
    identityProvider: Nullable<string>,
    userId: Nullable<string>,
    userDetails: Nullable<string>,
    userRoles: Nullable<seq<string>>)

  /**
   The header as the resolver sees it: absent, not base64 or not a JSON record,
   decoding to the JSON literal `null`, or decoding to a record. Bytes that are not
   valid UTF-8 are replaced, not rejected, so they do not make a header malformed.
   */
  datatype Header = Absent | Malformed | DecodedNull | Decoded(record: ClientPrincipal)

  datatype ClaimType = NameIdentifier | Name | Role

  datatype Claim = Claim(kind: ClaimType, value: string)

  datatype ClaimsIdentity = ClaimsIdentity(authenticationType: Nullable<string>, claims: seq<Claim>)

  datatype ClaimsPrincipal = ClaimsPrincipal(identities: seq<ClaimsIdentity>)

  /** The exceptions the resolver can raise. */
  datatype Fault =
    | InvalidHeader   // the header is not base64, or not a JSON record
    | NullPrincipal   // the payload is JSON `null`, so reading its roles dereferences null
    | NullClaimValue  // a claim is built from a null user id or user details

  /** The resolver either returns a principal or raises one of the faults. */
  datatype Resolution = Resolved(principal: ClaimsPrincipal) | Threw(fault: Fault)

  /** The principal of an unauthenticated visitor: no identity, hence no claim. */
  const EmptyPrincipal: ClaimsPrincipal := ClaimsPrincipal([])

  /** The record the resolver starts from when there is no header: every field null. */
  const DefaultRecord: ClientPrincipal := ClientPrincipal(Null, Null, Null, Null)

  /** The roles after filtering; a null role list stays null. */
  function RemainingRoles(p: ClientPrincipal): (r: Nullable<seq<string>>)
    ensures r.Null? <==> p.userRoles.Null?
    ensures r.NonNull? ==> forall i :: 0 <= i < |r.value| ==> !EqualsIgnoreCase(r.value[i], AnonymousRole)
    ensures r.NonNull? ==> forall i :: 0 <= i < |r.value| ==> r.value[i] in p.userRoles.value
  {
    match p.userRoles
    case Null => Null
    case NonNull(roles) => NonNull(FilterRoles(roles))
  }

  /** Some role is left after filtering, so the resolver builds an identity. */
  predicate HasRoles(p: ClientPrincipal)
    ensures HasRoles(p) <==>
      p.userRoles.NonNull? &&
      exists i :: 0 <= i < |p.userRoles.value| && !EqualsIgnoreCase(p.userRoles.value[i], AnonymousRole)
  {
    match RemainingRoles(p)
    case Null => false
    case NonNull(roles) =>
      FilterRolesEmptyIff(p.userRoles.value);
      roles != []
  }

  /** One role claim per role, in order. */
  function RoleClaims(roles: seq<string>): (cs: seq<Claim>)
    ensures |cs| == |roles|
    ensures forall i :: 0 <= i < |cs| ==> cs[i].kind == Role && cs[i].value == roles[i]
  {
    seq(|roles|, i requires 0 <= i < |roles| => Claim(Role, roles[i]))
  }

  /** The values of the claims of one type, in order. */
  function ValuesOf(claims: seq<Claim>, kind: ClaimType): (vs: seq<string>)
    ensures |vs| <= |claims|
    ensures forall v :: v in vs <==> Claim(kind, v) in claims
  {
    if claims == [] then []
    else if claims[0].kind == kind then [claims[0].value] + ValuesOf(claims[1..], kind)
    else ValuesOf(claims[1..], kind)
  }

  /** Builds the principal for a record, or raises when a claim value is null. */
  function PrincipalOf(p: ClientPrincipal): (r: Resolution)
    ensures r.Threw? <==> HasRoles(p) && (p.userId.Null? || p.userDetails.Null?)
    ensures r.Threw? ==> r.fault == NullClaimValue
    ensures r == Resolved(EmptyPrincipal) <==> !HasRoles(p)
  {
    var roles := RemainingRoles(p);
    if roles.Null? || roles.value == [] then Resolved(EmptyPrincipal)
    else if p.userId.Null? || p.userDetails.Null? then Threw(NullClaimValue)
    else
      var claims := [Claim(NameIdentifier, p.userId.value), Claim(Name, p.userDetails.value)]
                    + RoleClaims(roles.value);
      Resolved(ClaimsPrincipal([ClaimsIdentity(p.identityProvider, claims)]))
  }

  /** The resolver: reads the header and builds the caller's principal. */
  function GetPrincipal(header: Header): (r: Resolution)
    ensures header.Absent? ==> r == Resolved(EmptyPrincipal)
    ensures header.Malformed? <==> r == Threw(InvalidHeader)
    ensures header.DecodedNull? <==> r == Threw(NullPrincipal)
    ensures r == Threw(NullClaimValue) <==>
      header.Decoded? && HasRoles(header.record) && (header.record.userId.Null? || header.record.userDetails.Null?)
  {
    match header
    case Absent => PrincipalOf(DefaultRecord)
    case Malformed => Threw(InvalidHeader)
    case DecodedNull => Threw(NullPrincipal)
    case Decoded(p) => PrincipalOf(p)
  }

  /**
   Some identity of the principal holds a role claim whose value is exactly `role`:
   the value is compared with letter case, unlike the role filter.
   */
  predicate IsInRole(principal: ClaimsPrincipal, role: string)
    ensures IsInRole(principal, role) <==>
      exists k :: 0 <= k < |principal.identities| && role in ValuesOf(principal.identities[k].claims, Role)
    ensures principal.identities == [] ==> !IsInRole(principal, role)
  {
    exists k :: 0 <= k < |principal.identities| && Claim(Role, role) in principal.identities[k].claims
  }

  lemma {:induction false} ValuesOfAppend(a: seq<Claim>, b: seq<Claim>, kind: ClaimType)
    ensures ValuesOf(a + b, kind) == ValuesOf(a, kind) + ValuesOf(b, kind)
    decreases |a|
  {
    if a == [] {
      assert a + b == b;
    } else {
      assert (a + b)[0] == a[0];
      assert (a + b)[1..] == a[1..] + b;
      ValuesOfAppend(a[1..], b, kind);
    }
  }

  lemma {:induction false} ValuesOfRoleClaims(roles: seq<string>, kind: ClaimType)
    ensures ValuesOf(RoleClaims(roles), kind) == if kind == Role then roles else []
    decreases |roles|
  {
    if roles != [] {
      assert RoleClaims(roles)[1..] == RoleClaims(roles[1..]);
      ValuesOfRoleClaims(roles[1..], kind);
    }
  }

  /**
   When roles remain and both claim values are present, the principal has exactly one
   identity: its authentication type is the identity provider, it has exactly one
   subject claim (the user id), exactly one name claim (the user details), and its role
   claims are exactly the remaining roles.
   */
  lemma PrincipalClaims(p: ClientPrincipal)
    requires HasRoles(p) && p.userId.NonNull? && p.userDetails.NonNull?
    ensures GetPrincipal(Decoded(p)).Resolved?
    ensures |GetPrincipal(Decoded(p)).principal.identities| == 1
    ensures GetPrincipal(Decoded(p)).principal.identities[0].authenticationType == p.identityProvider
    ensures ValuesOf(GetPrincipal(Decoded(p)).principal.identities[0].claims, NameIdentifier) == [p.userId.value]
    ensures ValuesOf(GetPrincipal(Decoded(p)).principal.identities[0].claims, Name) == [p.userDetails.value]
    ensures ValuesOf(GetPrincipal(Decoded(p)).principal.identities[0].claims, Role) == FilterRoles(p.userRoles.value)
  {
    var roles := FilterRoles(p.userRoles.value);
    var head := [Claim(NameIdentifier, p.userId.value), Claim(Name, p.userDetails.value)];
    var claims := GetPrincipal(Decoded(p)).principal.identities[0].claims;
    assert claims == head + RoleClaims(roles);
    forall kind: ClaimType
      ensures ValuesOf(claims, kind) == ValuesOf(head, kind) + ValuesOf(RoleClaims(roles), kind)
    {
      ValuesOfAppend(head, RoleClaims(roles), kind);
      ValuesOfRoleClaims(roles, kind);
    }
    ValuesOfRoleClaims(roles, NameIdentifier);
    ValuesOfRoleClaims(roles, Name);
    ValuesOfRoleClaims(roles, Role);
  }

  /**
   The caller gets the empty principal exactly when the header is absent, or the record's
   roles are null, empty, or all "anonymous" in some spelling.
   */
  lemma EmptyPrincipalIff(header: Header)
    ensures GetPrincipal(header) == Resolved(EmptyPrincipal) <==>
      || header.Absent?
      || (header.Decoded? && header.record.userRoles.Null?)
      || (header.Decoded? && header.record.userRoles.NonNull? &&
          forall i :: 0 <= i < |header.record.userRoles.value| ==>
            EqualsIgnoreCase(header.record.userRoles.value[i], AnonymousRole))
  {
  }

  /**
   The resolved principal holds the role `role` exactly when that spelling is the first
   of its case-insensitive class among the record's roles and is not "anonymous".
   */
  lemma IsInRoleIff(p: ClientPrincipal, role: string)
    requires GetPrincipal(Decoded(p)).Resolved?
    ensures IsInRole(GetPrincipal(Decoded(p)).principal, role) <==>
      && p.userRoles.NonNull?
      && !EqualsIgnoreCase(role, AnonymousRole)
      && exists i :: 0 <= i < |p.userRoles.value| && p.userRoles.value[i] == role && FirstOfClass(p.userRoles.value, i)
  {
    if HasRoles(p) {
      PrincipalClaims(p);
      var principal := GetPrincipal(Decoded(p)).principal;
      var claims := principal.identities[0].claims;
      assert IsInRole(principal, role) <==> Claim(Role, role) in claims;
      assert Claim(Role, role) in claims <==> role in FilterRoles(p.userRoles.value);
      FilterRolesMembership(p.userRoles.value, role);
    } else if p.userRoles.NonNull? {
      FilterRolesMembership(p.userRoles.value, role);
    }
  }
}
