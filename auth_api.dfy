/** The login endpoint: credential check, role name, and the token it issues. The token
    is its claims, issuer, audience and expiry; signing and serialisation are not part
    of this model. */
module AuthApi {
  import opened Wrappers
  import Decimal
  import opened Dal
  import opened AccountStore

  /** `JwtRegisteredClaimNames.Sub`, `ClaimTypes.Name`, `ClaimTypes.Role`, and the
      application's own account id claim. */
  const SubClaimType := "sub"
  const NameClaimType := "http://schemas.xmlsoap.org/ws/2005/05/identity/claims/name"
  const RoleClaimType := "http://schemas.microsoft.com/ws/2008/06/identity/claims/role"
  const AccountIdClaimType := "AccountId"

  /** `DateTime` ticks (100 ns) in a minute. */
  const TicksPerMinute := 600_000_000

  const StaffRole := "Staff"
  const LecturerRole := "Lecturer"
  const DefaultAdminRole := "Admin"

  datatype Claim = Claim(claimType: string, value: string)

  /** The configuration keys the controller reads: `AdminRole`, `Jwt:Issuer`,
      `Jwt:Audience` (each possibly absent) and `Jwt:ExpiryInMinutes`. */
  datatype AuthConfig = AuthConfig(
    adminRole: Option<string>,
    issuer: Option<string>,
    audience: Option<string>,
    expiryInMinutes: int)

  datatype Token = Token(issuer: Option<string>, audience: Option<string>, claims: seq<Claim>, expires: int)

  datatype LoginRequest = LoginRequest(email: string, password: string)

  /** The two answers of the login endpoint: 401 with a message, or 200 with
      `{ Token, Role }`. */
  datatype LoginResult = Unauthorized(message: string) | LoggedIn(token: Token, role: string)

  /** `ClaimsPrincipal.FindFirst`: the value of the first claim of the given type. */
  function FindFirst(claims: seq<Claim>, claimType: string): (r: Option<string>)
    ensures r.None? <==> forall c :: c in claims ==> c.claimType != claimType
    ensures r.Some? ==> Claim(claimType, r.value) in claims
  {
    if claims == [] then None
    else if claims[0].claimType == claimType then Some(claims[0].value)
    else
      assert forall c :: c in claims[1..] ==> c in claims;
      assert forall c :: c in claims && c != claims[0] ==> c in claims[1..];
      FindFirst(claims[1..], claimType)
  }

  /** The role name of an account's role code: 1 is Staff, 2 is Lecturer, and every other
      code is the configured admin role, "Admin" when none is configured. */
  function GetRoleName(config: AuthConfig, accountRole: int): (r: string)
    ensures accountRole == 1 ==> r == StaffRole
    ensures accountRole == 2 ==> r == LecturerRole
    ensures accountRole != 1 && accountRole != 2 ==> r == config.adminRole.GetOr(DefaultAdminRole)
  {
    match accountRole
    case 1 => StaffRole
    case 2 => LecturerRole
    case _ => config.adminRole.GetOr(DefaultAdminRole)
  }

  /** The claims of the token, in order: email as subject, account name, role name and
      the account id in decimal. */
  function TokenClaims(account: SystemAccount, role: string): seq<Claim> {
    [ Claim(SubClaimType, account.accountEmail),
      Claim(NameClaimType, account.accountname),
      Claim(RoleClaimType, role),
      Claim(AccountIdClaimType, Decimal.IntToString(account.accountId)) ]
  }

  /** The token issued at `now`: it expires the configured number of minutes later. */
  function GenerateJwtToken(config: AuthConfig, account: SystemAccount, role: string, now: int): (t: Token)
    ensures t.expires - now == config.expiryInMinutes * TicksPerMinute
    ensures FindFirst(t.claims, SubClaimType) == Some(account.accountEmail)
    ensures FindFirst(t.claims, NameClaimType) == Some(account.accountname)
    ensures FindFirst(t.claims, RoleClaimType) == Some(role)
    ensures FindFirst(t.claims, AccountIdClaimType) == Some(Decimal.IntToString(account.accountId))
  {
    TokenClaimsFound(account, role);
    Token(config.issuer, config.audience, TokenClaims(account, role), now + config.expiryInMinutes * TicksPerMinute)
  }

  /** `POST api/auth/login`. */
  function Login(config: AuthConfig, accountService: AccountService, request: LoginRequest, now: int): (r: LoginResult)
    reads accountService, accountService.context
    ensures r.Unauthorized? <==> accountService.Authenticate(request.email, request.password).None?
    ensures r.Unauthorized? ==> r.message == "Invalid credentials"
    ensures r.LoggedIn? ==>
              var account := accountService.Authenticate(request.email, request.password).value;
              && r.role == GetRoleName(config, account.accountRole)
              && r.token == GenerateJwtToken(config, account, r.role, now)
  {
    var account := accountService.Authenticate(request.email, request.password);
    if account.None? then Unauthorized("Invalid credentials")
    else
      var role := GetRoleName(config, account.value.accountRole);
      LoggedIn(GenerateJwtToken(config, account.value, role, now), role)
  }

  // ---------------------------------------------------------------------------
  // Lemmas

  /** Each of the four claim types finds its own claim: the types differ in length. */
  lemma TokenClaimsFound(account: SystemAccount, role: string)
    ensures FindFirst(TokenClaims(account, role), SubClaimType) == Some(account.accountEmail)
    ensures FindFirst(TokenClaims(account, role), NameClaimType) == Some(account.accountname)
    ensures FindFirst(TokenClaims(account, role), RoleClaimType) == Some(role)
    ensures FindFirst(TokenClaims(account, role), AccountIdClaimType) == Some(Decimal.IntToString(account.accountId))
  {
    var c := TokenClaims(account, role);
    assert |SubClaimType| == 3 && |NameClaimType| == 58 && |RoleClaimType| == 60 && |AccountIdClaimType| == 9;
    var c1, c2, c3 := c[1..], c[2..], c[3..];
    assert c1[0] == c[1] && c2[0] == c[2] && c3[0] == c[3];
    assert c1[1..] == c2 && c2[1..] == c3;
    FindFirstSkip(c, NameClaimType);
    FindFirstSkip(c, RoleClaimType);
    FindFirstSkip(c1, RoleClaimType);
    FindFirstSkip(c, AccountIdClaimType);
    FindFirstSkip(c1, AccountIdClaimType);
    FindFirstSkip(c2, AccountIdClaimType);
  }

  /** A claim of another type is passed over. */
  lemma FindFirstSkip(claims: seq<Claim>, claimType: string)
    requires claims != [] && claims[0].claimType != claimType
    ensures FindFirst(claims, claimType) == FindFirst(claims[1..], claimType)
  {
  }

  /** A successful login answers with a token for an account whose credentials are the
      ones given: its subject is the email the caller sent, and its role claim is the
      role it reports. */
  lemma LoginTokenOfCaller(config: AuthConfig, accountService: AccountService, request: LoginRequest, now: int)
    requires Login(config, accountService, request, now).LoggedIn?
    ensures var r := Login(config, accountService, request, now);
            && FindFirst(r.token.claims, SubClaimType) == Some(request.email)
            && FindFirst(r.token.claims, RoleClaimType) == Some(r.role)
            && exists a :: a in accountService.context.systemAccounts && HasCredentials(a, request.email, request.password)
                           && FindFirst(r.token.claims, NameClaimType) == Some(a.accountname)
  {
    var account := accountService.Authenticate(request.email, request.password).value;
    assert account in accountService.context.systemAccounts;
  }

  /** The account id claim of an issued token reads back as the account's id. */
  lemma AccountIdClaimParses(config: AuthConfig, account: SystemAccount, role: string, now: int)
    requires Decimal.IsInt32(account.accountId)
    ensures var t := GenerateJwtToken(config, account, role, now);
            && FindFirst(t.claims, AccountIdClaimType).Some?
            && Decimal.ParseInt32(FindFirst(t.claims, AccountIdClaimType).value) == Some(account.accountId)
  {
    Decimal.ParseIntToString(account.accountId);
  }

  /** Only role code 2 is called Lecturer, unless the admin role is configured under that
      very name. */
  lemma LecturerOnlyForCodeTwo(config: AuthConfig, accountRole: int)
    requires config.adminRole != Some(LecturerRole)
    ensures GetRoleName(config, accountRole) == LecturerRole <==> accountRole == 2
  {
  }
}
