/** The news articles endpoints: the authorization each action demands, the request
    validation that runs before it, the acting account id read from the caller's
    claims, and the mapping of service results to HTTP results. */
module NewsApi {
  import opened Wrappers
  import Decimal
  import opened Dal
  import opened NewsStore
  import opened AuthApi

  /** The caller as the authentication middleware presents it. */
  datatype Principal = Anonymous | Authenticated(claims: seq<Claim>)

  predicate IsInRole(p: Principal, role: string) {
    p.Authenticated? && Claim(RoleClaimType, role) in p.claims
  }

  /** `[AllowAnonymous]`, `[Authorize]`, or `[Authorize(Roles = "...")]` with its roles
      split at the commas. */
  datatype Requirement = AllowAnonymous | AnyUser | InAnyRole(roles: seq<string>)

  const StaffOrAdmin := InAnyRole([StaffRole, DefaultAdminRole])
  const StaffOnly := InAnyRole([StaffRole])

  datatype ActionResult =
    | OkList(articles: seq<NewsArticle>)
    | OkArticle(article: NewsArticle)
    | CreatedAtGetById(id: int, article: NewsArticle)
    | NoContent
    | NotFound
    | BadRequest
    | Unauthorized401
    | Forbidden403
    | ServerError500

  /** The authorization step: `None` lets the action run; an anonymous caller of a
      protected action gets 401, an authenticated caller in none of the roles gets 403. */
  function Authorize(p: Principal, requirement: Requirement): (r: Option<ActionResult>)
    ensures r.None? || r == Some(Unauthorized401) || r == Some(Forbidden403)
    ensures r == Some(Unauthorized401) <==> p.Anonymous? && !requirement.AllowAnonymous?
    ensures r == Some(Forbidden403) <==>
              p.Authenticated? && requirement.InAnyRole? && forall role :: role in requirement.roles ==> !IsInRole(p, role)
  {
    match requirement
    case AllowAnonymous => None
    case AnyUser => if p.Anonymous? then Some(Unauthorized401) else None
    case InAnyRole(roles) =>
      if p.Anonymous? then Some(Unauthorized401)
      else if exists role :: role in roles && IsInRole(p, role) then None
      else Some(Forbidden403)
  }

  function ClaimsOf(p: Principal): seq<Claim> {
    if p.Anonymous? then [] else p.claims
  }

  /** `int.Parse(User.FindFirst("AccountId")?.Value ?? "0")`: a missing claim reads as
      "0"; `None` where the parse throws. */
  function ActingAccountId(p: Principal): (r: Option<int>)
    ensures FindFirst(ClaimsOf(p), AccountIdClaimType).None? ==> r == Some(0)
    ensures FindFirst(ClaimsOf(p), AccountIdClaimType).Some? ==>
              r == Decimal.ParseInt32(FindFirst(ClaimsOf(p), AccountIdClaimType).value)
  {
    Decimal.ParseZero();
    Decimal.ParseInt32(FindFirst(ClaimsOf(p), AccountIdClaimType).GetOr("0"))
  }

  /** Create's answer: 201 pointing at the new article, or 500 when a save threw. */
  function CreateResult(outcome: CreateOutcome): (r: ActionResult)
    ensures r.CreatedAtGetById? <==> outcome.Created?
    ensures outcome.Created? ==> r == CreatedAtGetById(outcome.news.newsArticleId, outcome.news)
    ensures !outcome.Created? ==> r == ServerError500
  {
    match outcome
    case Created(news) => CreatedAtGetById(news.newsArticleId, news)
    case ArticleRejected => ServerError500
    case TagsRejected(_) => ServerError500
  }

  /** Update's answer: 404 for false, 204 for true, 500 when the save threw. */
  function UpdateResult(outcome: UpdateOutcome): (r: ActionResult)
    ensures r == NotFound <==> outcome == Saved(false)
    ensures r == NoContent <==> outcome == Saved(true)
    ensures r == ServerError500 <==> outcome == SaveFailed
  {
    match outcome
    case Saved(found) => if found then NoContent else NotFound
    case SaveFailed => ServerError500
  }

  /** Delete's answer: 404 for false, 204 for true. */
  function DeleteResult(deleted: bool): (r: ActionResult)
    ensures r == NotFound <==> !deleted
    ensures r == NoContent <==> deleted
  {
    if deleted then NoContent else NotFound
  }

  class NewsArticlesController {
    const newsService: NewsArticleService

    constructor (newsService: NewsArticleService)
      ensures this.newsService == newsService
    {
      this.newsService := newsService;
    }

    /** `GET api/newsarticles`: open to everyone. */
    function GetActiveNews(p: Principal, search: Option<string>): (r: ActionResult)
      reads newsService, newsService.context
      ensures r == OkList(newsService.GetActiveNews(search))
    {
      match Authorize(p, AllowAnonymous)
      case Some(refusal) => refusal
      case None => OkList(newsService.GetActiveNews(search))
    }

    /** `GET api/newsarticles/all`: any authenticated caller. */
    function GetAll(p: Principal, search: Option<string>): (r: ActionResult)
      reads newsService, newsService.context
      ensures p.Anonymous? ==> r == Unauthorized401
      ensures p.Authenticated? ==> r == OkList(newsService.GetAll(search))
    {
      match Authorize(p, AnyUser)
      case Some(refusal) => refusal
      case None => OkList(newsService.GetAll(search))
    }

    /** `GET api/newsarticles/{id}`: any authenticated caller; 404 for an unknown id. */
    function GetById(p: Principal, id: int): (r: ActionResult)
      reads newsService, newsService.context
      ensures p.Anonymous? ==> r == Unauthorized401
      ensures p.Authenticated? ==>
                (r == NotFound <==> !HasArticle(newsService.context.newsArticles, id))
      ensures r.OkArticle? ==> r.article in newsService.context.newsArticles && r.article.newsArticleId == id
      ensures p.Authenticated? && HasArticle(newsService.context.newsArticles, id) ==>
                r == OkArticle(newsService.GetById(id).value)
    {
      match Authorize(p, AnyUser)
      case Some(refusal) => refusal
      case None =>
        var news := newsService.GetById(id);
        if news.None? then NotFound else OkArticle(news.value)
    }

    /** `GET api/newsarticles/my`: role Staff only; the articles the caller created. */
    function GetMyNews(p: Principal): (r: ActionResult)
      reads newsService, newsService.context
      ensures p.Anonymous? ==> r == Unauthorized401
      ensures p.Authenticated? && !IsInRole(p, StaffRole) ==> r == Forbidden403
      ensures IsInRole(p, StaffRole) && ActingAccountId(p).None? ==> r == ServerError500
      ensures r.OkList? <==> IsInRole(p, StaffRole) && ActingAccountId(p).Some?
      ensures r.OkList? ==> r == OkList(newsService.GetByCreator(ActingAccountId(p).value))
    {
      match Authorize(p, StaffOnly)
      case Some(refusal) => refusal
      case None =>
        var accountId := ActingAccountId(p);
        if accountId.None? then ServerError500 else OkList(newsService.GetByCreator(accountId.value))
    }

    /** `POST api/newsarticles`: Staff or Admin. */
    method Create(p: Principal, dto: NewsArticleDto, now: int) returns (r: ActionResult)
      requires newsService.context.Valid()
      modifies newsService.context
      ensures newsService.context.Valid()
      ensures Authorize(p, StaffOrAdmin).Some? ==> r == Authorize(p, StaffOrAdmin).value && unchanged(newsService.context)
      ensures Authorize(p, StaffOrAdmin).None? && !DtoValid(dto) ==> r == BadRequest && unchanged(newsService.context)
      ensures Authorize(p, StaffOrAdmin).None? && DtoValid(dto) && ActingAccountId(p).None? ==>
                r == ServerError500 && unchanged(newsService.context)
      ensures r.CreatedAtGetById? ==> r.article.createdById == ActingAccountId(p).value
      ensures Authorize(p, StaffOrAdmin).None? && DtoValid(dto) && ActingAccountId(p).Some? ==>
                var t0 := old(newsService.context.Snapshot());
                var news := NewArticle(old(newsService.context.nextNewsArticleId), dto, ActingAccountId(p).value, now);
                var t1 := WithArticle(t0, news);
                var t2 := WithLinks(t1, news.newsArticleId, dto.tagIds);
                && r == (if WellFormed(t1) && WellFormed(t2) then CreatedAtGetById(news.newsArticleId, news)
                         else ServerError500)
                && newsService.context.Snapshot() == (if !WellFormed(t1) then t0 else if WellFormed(t2) then t2 else t1)
    {
      var refusal := Authorize(p, StaffOrAdmin);
      if refusal.Some? {
        return refusal.value;
      }
      if !DtoValid(dto) {
        return BadRequest;
      }
      var accountId := ActingAccountId(p);
      if accountId.None? {
        return ServerError500;
      }
      var outcome := newsService.Create(dto, accountId.value, now);
      r := CreateResult(outcome);
    }

    /** `PUT api/newsarticles/{id}`: Staff or Admin. */
    method Update(p: Principal, id: int, dto: NewsArticleDto, now: int) returns (r: ActionResult)
      requires newsService.context.Valid()
      modifies newsService.context
      ensures newsService.context.Valid()
      ensures Authorize(p, StaffOrAdmin).Some? ==> r == Authorize(p, StaffOrAdmin).value && unchanged(newsService.context)
      ensures Authorize(p, StaffOrAdmin).None? && !DtoValid(dto) ==> r == BadRequest && unchanged(newsService.context)
      ensures Authorize(p, StaffOrAdmin).None? && DtoValid(dto) && ActingAccountId(p).None? ==>
                r == ServerError500 && unchanged(newsService.context)
      ensures r == NotFound ==> !HasArticle(old(newsService.context.newsArticles), id)
      ensures r == NoContent ==>
                newsService.context.Snapshot()
                == UpdateTables(old(newsService.context.Snapshot()), id, dto, ActingAccountId(p).value, now)
      ensures Authorize(p, StaffOrAdmin).None? && DtoValid(dto) && ActingAccountId(p).Some? ==>
                var t0 := old(newsService.context.Snapshot());
                var t1 := UpdateTables(t0, id, dto, ActingAccountId(p).value, now);
                && r == (if !HasArticle(t0.newsArticles, id) then NotFound
                         else if WellFormed(t1) then NoContent
                         else ServerError500)
                && newsService.context.Snapshot() == (if r == NoContent then t1 else t0)
    {
      var refusal := Authorize(p, StaffOrAdmin);
      if refusal.Some? {
        return refusal.value;
      }
      if !DtoValid(dto) {
        return BadRequest;
      }
      var accountId := ActingAccountId(p);
      if accountId.None? {
        return ServerError500;
      }
      var outcome := newsService.Update(id, dto, accountId.value, now);
      r := UpdateResult(outcome);
    }

    /** `DELETE api/newsarticles/{id}`: Staff or Admin. */
    method Delete(p: Principal, id: int) returns (r: ActionResult)
      requires newsService.context.Valid()
      modifies newsService.context
      ensures newsService.context.Valid()
      ensures Authorize(p, StaffOrAdmin).Some? ==> r == Authorize(p, StaffOrAdmin).value && unchanged(newsService.context)
      ensures Authorize(p, StaffOrAdmin).None? ==>
                && (r == NotFound <==> !HasArticle(old(newsService.context.newsArticles), id))
                && (r == NoContent <==> HasArticle(old(newsService.context.newsArticles), id))
                && newsService.context.Snapshot()
                   == (if r == NoContent then DeleteTables(old(newsService.context.Snapshot()), id)
                       else old(newsService.context.Snapshot()))
    {
      var refusal := Authorize(p, StaffOrAdmin);
      if refusal.Some? {
        return refusal.value;
      }
      var deleted := newsService.Delete(id);
      r := DeleteResult(deleted);
    }
  }

  // ---------------------------------------------------------------------------
  // Lemmas

  /** The principal of a caller who logged in as `account`. */
  function LoggedInPrincipal(config: AuthConfig, account: SystemAccount, now: int): Principal {
    Authenticated(GenerateJwtToken(config, account, GetRoleName(config, account.accountRole), now).claims)
  }

  /** The role claims of an issued token: exactly the one role it was issued for. */
  lemma RoleClaimOfToken(account: SystemAccount, role: string, x: string)
    ensures Claim(RoleClaimType, x) in TokenClaims(account, role) <==> x == role
  {
    var claims := TokenClaims(account, role);
    assert |SubClaimType| != |RoleClaimType| && |NameClaimType| != |RoleClaimType|
           && |AccountIdClaimType| != |RoleClaimType|;
    assert claims[0].claimType != RoleClaimType && claims[1].claimType != RoleClaimType
           && claims[3].claimType != RoleClaimType;
    assert claims[2] == Claim(RoleClaimType, role);
  }

  /** A Lecturer (role code 2) who logged in is refused by create, update and delete. */
  lemma LecturerForbidden(config: AuthConfig, account: SystemAccount, now: int)
    requires account.accountRole == 2
    ensures Authorize(LoggedInPrincipal(config, account, now), StaffOrAdmin) == Some(Forbidden403)
  {
    var p := LoggedInPrincipal(config, account, now);
    assert p.claims == TokenClaims(account, LecturerRole);
    assert |LecturerRole| != |StaffRole| && |LecturerRole| != |DefaultAdminRole|;
    RoleClaimOfToken(account, LecturerRole, StaffRole);
    RoleClaimOfToken(account, LecturerRole, DefaultAdminRole);
    assert !IsInRole(p, StaffRole) && !IsInRole(p, DefaultAdminRole);
  }

  /** An anonymous caller of any protected action gets 401. */
  lemma AnonymousUnauthorized(requirement: Requirement)
    requires !requirement.AllowAnonymous?
    ensures Authorize(Anonymous, requirement) == Some(Unauthorized401)
  {
  }

  /** A caller whose token has no account id claim acts as account 0. */
  lemma MissingAccountIdIsZero(claims: seq<Claim>)
    requires forall c :: c in claims ==> c.claimType != AccountIdClaimType
    ensures ActingAccountId(Authenticated(claims)) == Some(0)
  {
  }

  /** A Staff member (role code 1) who logged in gets, from `GET my`, exactly the
      articles they created, newest first. */
  lemma MyNewsOfLoggedInStaff(controller: NewsArticlesController, config: AuthConfig, account: SystemAccount, now: int)
    requires account.accountRole == 1 && Decimal.IsInt32(account.accountId)
    ensures controller.GetMyNews(LoggedInPrincipal(config, account, now))
            == OkList(controller.newsService.GetByCreator(account.accountId))
  {
    var p := LoggedInPrincipal(config, account, now);
    var role := GetRoleName(config, account.accountRole);
    AccountIdClaimParses(config, account, role, now);
    assert p.claims == TokenClaims(account, StaffRole);
    RoleClaimOfToken(account, StaffRole, StaffRole);
  }
}
