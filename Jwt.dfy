/** Building the JSON Web Token issued at login: its claims, issuer, audience,
    expiry and signing credentials. Serialising and signing the token (the compact
    form of section 7.1 of RFC 7519, signed with HMAC SHA-256 as in section 3.2 of
    RFC 7518) is the `writeToken` function the service is given. */
module Jwt {
  import opened Wrappers
  import opened Strings
  import opened Dates
  import opened Linq
  import opened Models

  datatype Claim = Claim(claimType: string, value: string)

  /** The Jwt:Key, Jwt:Issuer and Jwt:Audience configuration entries. */
  datatype JwtConfiguration = JwtConfiguration(key: string, issuer: string, audience: string)

  /** The JWS "alg" value of HMAC SHA-256. */
  const HmacSha256: string := "HS256"

  datatype SigningCredentials = SigningCredentials(key: string, algorithm: string)

  /** An unsigned token; `expires` is in seconds, on the same clock as the issue time. */
  datatype JwtSecurityToken = JwtSecurityToken(
    issuer: string,
    audience: string,
    claims: seq<Claim>,
    expires: int,
    signingCredentials: SigningCredentials)

  /** Eight hours, in seconds. */
  const TokenLifetime: int := 8 * 60 * 60

  /** The claim types, in the order the token lists them. */
  const ClaimOrder: seq<string> := ["dateOfBirth", "email", "userRoleId", "firstName", "lastName", "userName", "id"]

  /** The seven claims describing a user, typed as ClaimOrder lists them. Each type
      finds its own claim: the text fields are copied unchanged, and the ids and the
      date of birth are carried as text. The role claim is taken from the user's
      navigation role, not from its UserRoleId column. */
  function UserClaims(user: User): (claims: seq<Claim>)
    ensures |claims| == |ClaimOrder|
    ensures forall k :: 0 <= k < |ClaimOrder| ==> claims[k].claimType == ClaimOrder[k]
    ensures FindClaim(claims, "dateOfBirth") == Some(ToIsoString(user.dateOfBirth))
    ensures FindClaim(claims, "email") == Some(user.email)
    ensures FindClaim(claims, "userRoleId") == Some(IntToString(user.userRole.id))
    ensures FindClaim(claims, "firstName") == Some(user.firstName)
    ensures FindClaim(claims, "lastName") == Some(user.lastName)
    ensures FindClaim(claims, "userName") == Some(user.userName)
    ensures FindClaim(claims, "id") == Some(IntToString(user.id))
  {
    var cs := [ Claim("dateOfBirth", ToIsoString(user.dateOfBirth)),
                Claim("email", user.email),
                Claim("userRoleId", IntToString(user.userRole.id)),
                Claim("firstName", user.firstName),
                Claim("lastName", user.lastName),
                Claim("userName", user.userName),
                Claim("id", IntToString(user.id)) ];
    FindOrderedClaims(cs);
    assert FindClaim(cs, ClaimOrder[0]) == Some(cs[0].value);
    assert FindClaim(cs, ClaimOrder[1]) == Some(cs[1].value);
    assert FindClaim(cs, ClaimOrder[2]) == Some(cs[2].value);
    assert FindClaim(cs, ClaimOrder[3]) == Some(cs[3].value);
    assert FindClaim(cs, ClaimOrder[4]) == Some(cs[4].value);
    assert FindClaim(cs, ClaimOrder[5]) == Some(cs[5].value);
    assert FindClaim(cs, ClaimOrder[6]) == Some(cs[6].value);
    cs
  }

  /** The token for `user` issued at time `now`: it names the configured issuer and
      audience, carries the user's claims, is signed with HMAC SHA-256 under the
      configured key, and expires exactly eight hours after issue, so it is unexpired
      at every moment of those eight hours and expired from then on. */
  function CreateToken(configuration: JwtConfiguration, user: User, now: int): (token: JwtSecurityToken)
    ensures token.issuer == configuration.issuer && token.audience == configuration.audience
    ensures token.claims == UserClaims(user)
    ensures token.signingCredentials == SigningCredentials(configuration.key, "HS256")
    ensures forall at :: now <= at < now + 8 * 3600 ==> IsUnexpired(token, at)
    ensures forall at :: now + 8 * 3600 <= at ==> !IsUnexpired(token, at)
  {
    JwtSecurityToken(
      configuration.issuer,
      configuration.audience,
      UserClaims(user),
      now + TokenLifetime,
      SigningCredentials(configuration.key, HmacSha256))
  }

  /** The token service: its configuration and the serialiser-and-signer it hands tokens to. */
  datatype JwtService = JwtService(configuration: JwtConfiguration, writeToken: JwtSecurityToken -> string) {
    function GenerateJwtSecurityTokenFromUser(user: User, now: int): string {
      writeToken(CreateToken(configuration, user, now))
    }
  }

  /** A token that has not expired at time `at`. */
  predicate IsUnexpired(token: JwtSecurityToken, at: int) {
    at < token.expires
  }

  /** The value of the first claim of the given type. */
  function FindClaim(claims: seq<Claim>, claimType: string): (r: Option<string>)
    ensures r.Some? <==> exists k :: 0 <= k < |claims| && claims[k].claimType == claimType
  {
    match FirstOrDefault(claims, (c: Claim) => c.claimType == claimType)
    case None => None
    case Some(c) => Some(c.value)
  }

  /** The identity a holder of the token can read back from its claims. */
  datatype TokenIdentity = TokenIdentity(
    id: int,
    userName: string,
    email: string,
    firstName: string,
    lastName: string,
    dateOfBirth: DateOnly,
    userRoleId: int)

  function ReadIdentity(claims: seq<Claim>): Option<TokenIdentity> {
    var dateText :- FindClaim(claims, "dateOfBirth");
    var dateOfBirth :- ParseIsoDate(dateText);
    var email :- FindClaim(claims, "email");
    var roleText :- FindClaim(claims, "userRoleId");
    var userRoleId :- ParseInt(roleText);
    var firstName :- FindClaim(claims, "firstName");
    var lastName :- FindClaim(claims, "lastName");
    var userName :- FindClaim(claims, "userName");
    var idText :- FindClaim(claims, "id");
    var id :- ParseInt(idText);
    Some(TokenIdentity(id, userName, email, firstName, lastName, dateOfBirth, userRoleId))
  }

  function IdentityOf(user: User): TokenIdentity {
    TokenIdentity(user.id, user.userName, user.email, user.firstName, user.lastName,
                  user.dateOfBirth, user.userRole.id)
  }

  /** In a claim list whose types are ClaimOrder, each type finds its own claim. */
  lemma FindOrderedClaims(claims: seq<Claim>)
    requires |claims| == |ClaimOrder|
    requires forall k :: 0 <= k < |ClaimOrder| ==> claims[k].claimType == ClaimOrder[k]
    ensures forall k :: 0 <= k < |ClaimOrder| ==> FindClaim(claims, ClaimOrder[k]) == Some(claims[k].value)
  {
    forall k | 0 <= k < |ClaimOrder|
      ensures FindClaim(claims, ClaimOrder[k]) == Some(claims[k].value)
    {
      var t := ClaimOrder[k];
      var r := FirstOrDefault(claims, (c: Claim) => c.claimType == t);
      assert claims[k].claimType == t;
      var m :| 0 <= m < |claims| && claims[m] == r.value && claims[m].claimType == t
               && forall j :: 0 <= j < m ==> claims[j].claimType != t;
      assert m <= k;
      ClaimOrderDistinct(m, k);
    }
  }

  /** The claim types are pairwise distinct: all lengths differ except those of
      "lastName" and "userName", which differ in their first letter. */
  lemma ClaimOrderDistinct(i: int, j: int)
    requires 0 <= i < |ClaimOrder| && 0 <= j < |ClaimOrder|
    requires ClaimOrder[i] == ClaimOrder[j]
    ensures i == j
  {
    assert ClaimOrder[4][0] == 'l' && ClaimOrder[5][0] == 'u';
  }

  /** Reading the claims of a user's token gives back that user's identity: the ids
      and the date of birth parse back to the user's values. */
  lemma ReadIdentityOfUserClaims(user: User)
    ensures ReadIdentity(UserClaims(user)) == Some(IdentityOf(user))
  {
    IsoRoundTrip(user.dateOfBirth);
    IntToStringRoundTrip(user.userRole.id);
    IntToStringRoundTrip(user.id);
  }

  /** The issued token carries the user's identity and nothing else of the user: two
      users with the same id, names, email, date of birth and navigation role id get
      the same token, whatever their salts, password hashes or UserRoleId columns. */
  lemma GeneratedTokenCarriesIdentityOnly(service: JwtService, u: User, v: User, now: int)
    requires IdentityOf(u) == IdentityOf(v)
    ensures service.GenerateJwtSecurityTokenFromUser(u, now) == service.GenerateJwtSecurityTokenFromUser(v, now)
    ensures ReadIdentity(CreateToken(service.configuration, u, now).claims) == Some(IdentityOf(v))
  {
    ReadIdentityOfUserClaims(u);
  }
}
