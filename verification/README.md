# Token endpoint: principal resolver and authorization gate

This project models the `token` HTTP function of a Static Web Apps template for Azure
Communication Services. The hosting platform adds an `x-ms-client-principal` header to each
request. The header is base64-encoded JSON holding the identity provider, the user id, the user
details and the user's roles. The function turns the header into a claims principal. It then asks
the Communication Services identity service for a new user and access token, with the Chat and
VoIP scopes, but only when that principal holds the role `authenticated`. Every other caller gets a
401.

The model has four modules:

- `CaseFold` (`casefold.dfy`): the case-insensitive comparer, as ASCII lower-casing.
- `RoleFilter` (`rolefilter.dfy`): the set difference that removes `anonymous` in every spelling.
  It is modelled the way the library computes it. A set of comparison keys starts with the key
  of `anonymous`. A role is kept only when adding its key to the set succeeds. So it also drops
  every later role that equals an earlier one ignoring case, and it keeps the order of the first
  occurrences.
- `Principal` (`principal.dfy`): the decoded record `ClientPrincipal`, whose fields may be null,
  and the header as `Absent | Malformed | DecodedNull | Decoded(record)`. It also holds the claims
  principal and the resolver `GetPrincipal`, with its three exceptions.
- `TokenFunction` (`tokenfunction.dfy`): the dispatcher `Run`, from a header to
  `IssueToken(scopes) | Unauthorized | Failed(fault)`.

Behaviour of the code worth noting:

- A field missing from the JSON stays null. Null roles give the empty principal,
  the same result as an empty role list. A null user id or user details makes the claim
  constructor throw, but only when some role remains (`Fault.NullClaimValue`).
- Roles are a sequence. The filter removes duplicates ignoring case and keeps the first
  spelling. So `["Authenticated", "authenticated"]` yields a 401.
- A header that cannot be decoded raises an exception that the function does not catch. It is
  modelled as `Failed(InvalidHeader)` and is given no HTTP status. The JSON literal `null` decodes
  to a null record, and reading its roles raises a null dereference (`Failed(NullPrincipal)`).
- The identity provider becomes the identity's authentication type. The role claims carry no
  issuer of their own.

## Model

| member | source | states |
|---|---|---|
| CaseFold.LowerChar | api/TokenFunction.cs:100 | an upper-case letter maps to its lower-case letter, every other character to itself, and the result is never upper-case |
| CaseFold.Fold | api/TokenFunction.cs:100 | the comparison key has the input's length, has no upper-case letter, replaces each upper-case letter by its lower-case letter, and keeps every other character |
| CaseFold.EqualsIgnoreCase | api/TokenFunction.cs:100 | two strings are equal ignoring case iff they have the same length and agree character by character after lower-casing |
| CaseFold.LetterCaseVariants | api/TokenFunction.cs:100 | strings that differ only by upper-case letters standing for lower-case ones are equal ignoring case, so "ANONYMOUS" equals "anonymous" |
| CaseFold.FoldIdempotent | api/TokenFunction.cs:100 | folding a key again gives the same key, so each case-insensitive class has one canonical key |
| RoleFilter.ExceptFrom | api/TokenFunction.cs:100 | the set-difference iterator yields only entries of its input whose key was not yet seen, and no two yielded entries are equal ignoring case |
| RoleFilter.FilterRoles | api/TokenFunction.cs:100 | no remaining role equals "anonymous" ignoring case; every remaining role was in the input; the result has no duplicates, even ignoring case |
| RoleFilter.ExceptFromMembership | api/TokenFunction.cs:100 | an entry is yielded iff some position holds it, its key was not seen, and no earlier entry has its key |
| RoleFilter.FilterRolesMembership | api/TokenFunction.cs:100 | a role remains iff it occurs in the input, is not "anonymous" in any spelling, and is the first spelling of its class |
| RoleFilter.ExceptFromCovers | api/TokenFunction.cs:100 | every input entry whose key was not seen is represented in the output by an entry equal to it ignoring case |
| RoleFilter.FilterRolesComplete | api/TokenFunction.cs:100 | every input role that is not "anonymous" survives, up to letter case |
| RoleFilter.ExceptFromIsSubsequence | api/TokenFunction.cs:100 | the iterator keeps its output in input order |
| RoleFilter.FilterRolesIsSubsequence | api/TokenFunction.cs:100 | the remaining roles are a subsequence of the input roles |
| RoleFilter.FilterRolesEmptyIff | api/TokenFunction.cs:100-102 | no role remains iff every input role is "anonymous" in some spelling |
| RoleFilter.ExceptFromKeepsDistinct | api/TokenFunction.cs:100 | on a duplicate-free input none of whose keys was seen, the iterator yields its input unchanged |
| RoleFilter.FilterRolesIdempotent | api/TokenFunction.cs:100 | filtering already filtered roles changes nothing |
| Principal.RemainingRoles | api/TokenFunction.cs:100 | null roles stay null; otherwise the remaining roles come from the input and none is "anonymous" |
| Principal.HasRoles | api/TokenFunction.cs:102 | an identity is built iff the roles are not null and some role is not "anonymous" in any spelling |
| Principal.RoleClaims | api/TokenFunction.cs:110 | one role claim per remaining role, in the same order |
| Principal.ValuesOf | api/TokenFunction.cs:107-110 | a value is listed for a claim type iff the claim list holds a claim of that type with that value |
| Principal.ValuesOfAppend | api/TokenFunction.cs:108-110 | the claim values of a type in a concatenation are those of the first part followed by those of the second |
| Principal.ValuesOfRoleClaims | api/TokenFunction.cs:110 | the role claims carry exactly the given roles as role values and no value of any other claim type |
| Principal.PrincipalOf | api/TokenFunction.cs:100-112 | the empty principal iff no role remains; an exception iff roles remain and the user id or details is null |
| Principal.GetPrincipal | api/TokenFunction.cs:88-113 | absent header gives the empty principal; an undecodable header, and only it, raises InvalidHeader; a null payload, and only it, raises NullPrincipal; NullClaimValue iff a decoded record has roles left but a null user id or details |
| Principal.PrincipalClaims | api/TokenFunction.cs:107-112 | with roles left and claim values present: exactly one identity, authentication type = identity provider, exactly one subject claim = user id, exactly one name claim = user details, role claims exactly the remaining roles |
| Principal.EmptyPrincipalIff | api/TokenFunction.cs:90-105 | the empty principal iff the header is absent, or roles are null, or every role is "anonymous" in some spelling (including none) |
| Principal.IsInRole | api/TokenFunction.cs:52 | a principal holds a role iff some identity lists that exact value among its role claims; the empty principal holds none |
| Principal.IsInRoleIff | api/TokenFunction.cs:52 | the resolved principal holds a role iff that exact spelling is the first of its class among the input roles and is not "anonymous" |
| TokenFunction.Run | api/TokenFunction.cs:41-64 | a token is requested only with scopes [Chat, VoIP]; the request fails iff resolving the principal raised, with that exception |
| TokenFunction.AuthenticatedIsNotAnonymous | api/TokenFunction.cs:52 | the required role is not a spelling of "anonymous", so the filter never removes it |
| TokenFunction.IssueTokenIff | api/TokenFunction.cs:52-60 | a token is requested iff the header decodes to a record with user id and details whose roles hold exact "authenticated" with no other spelling of it before |
| TokenFunction.UnauthorizedIff | api/TokenFunction.cs:52-63 | 401 iff the header is absent, or the record does not authorize and its claims could be built |
| TokenFunction.MalformedHeaderFails | api/TokenFunction.cs:92-100 | an undecodable header or a null payload ends in an error, never a 401 or a token |
| TokenFunction.AbsentHeaderIsUnauthorized | api/TokenFunction.cs:90-105 | an absent header gives the empty principal and a 401, not an error |
| TokenFunction.AuthorizationIsCaseSensitive | api/TokenFunction.cs:52 | roles without the exact string "authenticated" never get a token |
| TokenFunction.AnonymousAndAuthenticatedExample | api/TokenFunction.cs:100-112 | ["Anonymous", "authenticated"] gets a token, and the only role claim is "authenticated" |
| TokenFunction.AnonymousOnlyExample | api/TokenFunction.cs:100-105 | ["anonymous"] and [] give the empty principal and a 401 |
| TokenFunction.CapitalizedAuthenticatedExample | api/TokenFunction.cs:52 | ["Authenticated"] gives a non-empty principal but still a 401 |
| TokenFunction.ShadowedAuthenticatedExample | api/TokenFunction.cs:100 | ["Authenticated", "authenticated"] gives a 401, because the filter keeps only the first spelling |
| TokenFunction.MissingUserIdExample | api/TokenFunction.cs:108 | a record with a remaining role but no user id fails while building the subject claim |

## Left out

- Case folding: the comparer ignores case using the current culture. It is approximated by ASCII
  lower-casing. Non-ASCII letters, and culture-specific rules such as the Turkish dotless i, are not
  modelled.
- Decoding the header: base64, UTF-8 and JSON deserialization with case-insensitive field names
  (lines 95-97) are library calls. The header is given already decoded (`Header`). Only the first
  header value is read. An empty list of header values is not modelled.
- Null role entries: a JSON `null` inside the role array would pass the filter and make the role
  claim constructor throw. The model takes role entries as non-null strings.
- The identity service call (lines 54-59): it is an opaque external service. It is reduced to
  `IssueToken(scopes)`. Its response, its failures and the 200 body it produces are not modelled.
- `CreateIdentityClient` (lines 66-79): reading the connection string from the environment, and
  throwing when it is missing, is process configuration. It is not modelled.
- Hosting: the HTTP trigger, the ASP.NET result types, logging and async execution (lines 40-45,
  59, 63) are not modelled. The outcome only names a 401.
- Claim details: a claim is modelled by its type and value. Its issuer and value type, the
  identity's name and role claim types, and `IsAuthenticated` are not modelled. Role membership
  compares the value exactly, as the platform's role check does.
- The filter is evaluated lazily and twice (at the emptiness test and at claim construction). It is
  modelled as evaluated once, which gives the same result because it is deterministic.
