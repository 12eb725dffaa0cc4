/**
 This module models the `token` endpoint's dispatcher. It resolves the caller's
 principal. It asks the communication identity service for a new user and token,
 with the chat and VoIP scopes, only when the principal holds the role
 "authenticated", matched case-sensitively. Otherwise it answers 401. The service call
 is opaque here: the outcome only records that a token was requested and with which
 scopes. An exception raised while resolving the principal ends the request as a
 failure, which is neither a token nor a 401.
 */
module TokenFunction {
  import opened CaseFold
  import opened RoleFilter
  import opened Principal

  /** The capabilities requested for the new communication user. */
  datatype Scope = Chat | VoIP

  datatype Outcome =
    | IssueToken(scopes: seq<Scope>)  // 200 with the identity service's user and token
    | Unauthorized                    // 401 with an empty body
    | Failed(fault: Fault)            // the request ends with an exception

  /** The role the hosting platform gives to every signed-in user. */
  const AuthenticatedRole: string := "authenticated"

  /** The scopes every issued token carries. */
  const TokenScopes: seq<Scope> := [Chat, VoIP]

  /** Handles one request, given the header it carries. */
  function Run(header: Header): (o: Outcome)
    ensures o.IssueToken? ==> o.scopes == [Chat, VoIP]
    ensures o.Failed? <==> GetPrincipal(header).Threw?
    ensures o.Failed? ==> o.fault == GetPrincipal(header).fault
    ensures o.IssueToken? <==>
      GetPrincipal(header).Resolved? && IsInRole(GetPrincipal(header).principal, AuthenticatedRole)
  {
    match GetPrincipal(header)
    case Threw(fault) => Failed(fault)
    case Resolved(principal) =>
      if IsInRole(principal, AuthenticatedRole) then IssueToken(TokenScopes) else Unauthorized
  }

  /** The decoded record lets the caller through: "authenticated" is the first of its class among the roles. */
  predicate Authorizes(p: ClientPrincipal) {
    && p.userRoles.NonNull?
    && exists i :: 0 <= i < |p.userRoles.value| && p.userRoles.value[i] == AuthenticatedRole
                   && FirstOfClass(p.userRoles.value, i)
  }

  /** The required role is not a spelling of "anonymous", so the filter never removes it. */
  lemma AuthenticatedIsNotAnonymous()
    ensures !EqualsIgnoreCase(AuthenticatedRole, AnonymousRole)
  {
  }

  /**
   A token is requested exactly when the header decodes to a record with both claim
   values present whose roles hold "authenticated" spelled exactly so, with no other
   spelling of it before.
   */
  lemma IssueTokenIff(header: Header)
    ensures Run(header).IssueToken? <==>
      && header.Decoded?
      && header.record.userId.NonNull?
      && header.record.userDetails.NonNull?
      && Authorizes(header.record)
  {
    AuthenticatedIsNotAnonymous();
    if header.Decoded? {
      var p := header.record;
      if Authorizes(p) {
        var i :| 0 <= i < |p.userRoles.value| && p.userRoles.value[i] == AuthenticatedRole
                 && FirstOfClass(p.userRoles.value, i);
        FilterRolesMembership(p.userRoles.value, AuthenticatedRole);
        assert HasRoles(p);
      }
      if GetPrincipal(header).Resolved? {
        IsInRoleIff(p, AuthenticatedRole);
      }
    }
  }

  /**
   The caller gets 401 exactly when the header is absent, or it decodes to a record that
   does not authorize it and whose claims could be built.
   */
  lemma UnauthorizedIff(header: Header)
    ensures Run(header) == Unauthorized <==>
      || header.Absent?
      || (&& header.Decoded?
          && !Authorizes(header.record)
          && (!HasRoles(header.record) || (header.record.userId.NonNull? && header.record.userDetails.NonNull?)))
  {
    IssueTokenIff(header);
    if header.Decoded? && Authorizes(header.record) {
      var p := header.record;
      AuthenticatedIsNotAnonymous();
      FilterRolesMembership(p.userRoles.value, AuthenticatedRole);
      assert HasRoles(p);
    }
  }

  /** A header that cannot be decoded ends the request with an error, never with a 401 or a token. */
  lemma MalformedHeaderFails()
    ensures Run(Malformed) == Failed(InvalidHeader)
    ensures Run(DecodedNull) == Failed(NullPrincipal)
  {
  }

  /** An absent header is the ordinary anonymous visitor: a 401, not an error. */
  lemma AbsentHeaderIsUnauthorized()
    ensures GetPrincipal(Absent) == Resolved(EmptyPrincipal)
    ensures Run(Absent) == Unauthorized
  {
  }

  /**
   The final check is case-sensitive: a record whose roles contain no exact
   "authenticated" gets no token, whatever other spellings of it it holds.
   */
  lemma AuthorizationIsCaseSensitive(p: ClientPrincipal)
    requires p.userRoles.NonNull? && AuthenticatedRole !in p.userRoles.value
    ensures !Run(Decoded(p)).IssueToken?
  {
    IssueTokenIff(Decoded(p));
  }

  /** A record with user id and details, built from a role list. */
  function SignedIn(roles: seq<string>): ClientPrincipal {
    ClientPrincipal(NonNull("aad"), NonNull("u1"), NonNull("Alice"), NonNull(roles))
  }

  /** ["Anonymous", "authenticated"]: authorized, and the only role claim is "authenticated". */
  lemma AnonymousAndAuthenticatedExample()
    ensures Run(Decoded(SignedIn(["Anonymous", "authenticated"]))) == IssueToken([Chat, VoIP])
    ensures ValuesOf(GetPrincipal(Decoded(SignedIn(["Anonymous", "authenticated"]))).principal.identities[0].claims, Role)
            == ["authenticated"]
  {
    var roles := ["Anonymous", "authenticated"];
    AuthenticatedIsNotAnonymous();
    assert EqualsIgnoreCase(roles[0], AnonymousRole);
    assert FilterRoles(roles) == ["authenticated"];
    PrincipalClaims(SignedIn(roles));
    IssueTokenIff(Decoded(SignedIn(roles)));
  }

  /** ["anonymous"] alone, and [] alone, give the empty principal and a 401. */
  lemma AnonymousOnlyExample()
    ensures GetPrincipal(Decoded(SignedIn(["anonymous"]))) == Resolved(EmptyPrincipal)
    ensures Run(Decoded(SignedIn(["anonymous"]))) == Unauthorized
    ensures GetPrincipal(Decoded(SignedIn([]))) == Resolved(EmptyPrincipal)
    ensures Run(Decoded(SignedIn([]))) == Unauthorized
  {
    EmptyPrincipalIff(Decoded(SignedIn(["anonymous"])));
    EmptyPrincipalIff(Decoded(SignedIn([])));
  }

  /** ["Authenticated"] survives the filter, so the principal is not empty, yet the caller gets a 401. */
  lemma CapitalizedAuthenticatedExample()
    ensures GetPrincipal(Decoded(SignedIn(["Authenticated"]))).Resolved?
    ensures GetPrincipal(Decoded(SignedIn(["Authenticated"]))).principal != EmptyPrincipal
    ensures Run(Decoded(SignedIn(["Authenticated"]))) == Unauthorized
  {
  }

  /**
   ["Authenticated", "authenticated"]: the filter keeps only the first spelling, so the
   exact "authenticated" is dropped and the caller gets a 401.
   */
  lemma ShadowedAuthenticatedExample()
    ensures Run(Decoded(SignedIn(["Authenticated", "authenticated"]))) == Unauthorized
  {
    var roles := ["Authenticated", "authenticated"];
    assert EqualsIgnoreCase(roles[0], roles[1]);
    assert !FirstOfClass(roles, 1);
    assert roles[0] != AuthenticatedRole;
    UnauthorizedIff(Decoded(SignedIn(roles)));
    assert !Authorizes(SignedIn(roles));
  }

  /** A record with roles but without a user id fails while building its claims. */
  lemma MissingUserIdExample()
    ensures Run(Decoded(ClientPrincipal(NonNull("aad"), Null, NonNull("Alice"), NonNull(["authenticated"]))))
            == Failed(NullClaimValue)
  {
  }
}
