# News management: a Dafny model of its backend services and frontend session logic

This project models the core of a small news management system. The backend is an
ASP.NET Web API over an Entity Framework database context. The frontend is a React
single-page application.

The model covers these parts:

- **Data layer**: the five entity sets (accounts, news articles, article-tag links,
  tags, categories). The schema rules the context configures become one
  well-formedness predicate: primary keys, the composite key of the link table, the
  foreign keys of links and articles, and the column lengths. `SaveChanges` commits
  the pending state exactly when the database would accept it. Otherwise nothing
  changes, and the service's exception is an explicit outcome.
- **News article service**: the three listings (filter, then newest first), lookup by
  id, Create (two saves: first the article, then its links), Update (overwrites the
  fields and replaces the links) and Delete (removes the links and the row).
- **Account service**: credential check, listing, lookup, the two-condition search,
  Add, Update, and the guarded Delete.
- **Login endpoint**: the role name of an account's role code, the claims and expiry
  of the issued token, and the 401 answer.
- **News articles endpoints**: the authorization the controller's attributes demand
  (401/403). Then the request validation (400). Then the acting account id, read from
  the "AccountId" claim with the "0" fallback and `int.Parse` (which can throw). Last,
  how service results map to 200/201/204/404/500.
- **Frontend**:
  - the session store over `localStorage` (`setCurrentUser`, `getCurrentUser`,
    `logout`), with `JSON.stringify`/`JSON.parse` modelled for flat documents;
  - the protected-route redirect decision;
  - the article form's tag toggle and its create/edit initialisation.

Modules follow the source files:

| module | source |
|---|---|
| `Dal` (dal.dfy) | DAL/NewsManagementDbContext.cs and the entity classes |
| `NewsStore` (news_store.dfy) | BLL/Services/NewsArticleService.cs and its two DTOs |
| `AccountStore` (account_store.dfy) | BLL/Services/AccountService.cs |
| `AuthApi` (auth_api.dfy) | API/Controllers/AuthController.cs |
| `NewsApi` (news_api.dfy) | API/Controllers/NewsArticlesController.cs |
| `AuthSession` (auth_session.dfy) | client/src/services/auth.service.ts |
| `ProtectedRoute` (protected_route.dfy) | client/src/components/protected-route.tsx |
| `NewsArticleForm` (news_article_form.dfy) | client/src/pages/news-article-management.tsx |
| `Json`, `Decimal`, `Text`, `Listing`, `Wrappers` | platform behaviour those files rely on: `JSON.stringify`/`JSON.parse`, `Int32.ToString`/`int.Parse`, `string.Contains`/`IsNullOrEmpty`, LINQ `Where`, optional values |

Parameters stand in for the outside world:

- `now` (an integer count of 100 ns ticks) stands in for `DateTime.Now`.
- `AuthConfig` stands in for `IConfiguration`.
- `Principal` stands in for the authenticated user.
- The controller's answers are values of `ActionResult`; a thrown exception is
  `ServerError500`.
- The database context, the services, the controller and `localStorage` are classes
  whose methods change their fields in place.

## Model

| member | source | states |
|---|---|---|
| Dal.NewsManagementDbContext.SaveChanges | PhanVuKhanhTien_SE1703_A02_BE/DAL/NewsManagementDbContext.cs:22-62 | the pending tables are written exactly when they satisfy every configured rule: unique keys, a unique (article, tag) pair, links and articles whose foreign keys resolve, account name ≤ 100, title ≤ 200, tag name ≤ 50, category name ≤ 100; otherwise the tables stay as they were |
| Dal.NewsManagementDbContext.TakeNewsArticleId | PhanVuKhanhTien_SE1703_A02_BE/DAL/NewsManagementDbContext.cs:33 | the identity key hands out an article id no stored article has, and the context stays valid |
| Dal.NewsManagementDbContext.constructor | PhanVuKhanhTien_SE1703_A02_BE/DAL/NewsManagementDbContext.cs:12-14 | a context over empty tables is valid |
| NewsStore.NewsArticleService.GetActiveNews | PhanVuKhanhTien_SE1703_A02_BE/BLL/Services/NewsArticleService.cs:17-31 | newest first, and exactly the articles with status 1 whose title or content contains the search (any article when the search is null or empty), each as often as in the table |
| NewsStore.NewsArticleService.GetAll | PhanVuKhanhTien_SE1703_A02_BE/BLL/Services/NewsArticleService.cs:33-46 | newest first, exactly the matching articles with their multiplicities; a null or empty search gives a permutation of the whole table |
| NewsStore.NewsArticleService.GetById | PhanVuKhanhTien_SE1703_A02_BE/BLL/Services/NewsArticleService.cs:48-54 | present exactly when an article has the id, and then it is a stored article with that id |
| NewsStore.NewsArticleService.GetByCreator | PhanVuKhanhTien_SE1703_A02_BE/BLL/Services/NewsArticleService.cs:125-133 | newest first, exactly the articles created by the given account, with their multiplicities |
| NewsStore.NewsArticleService.Create | PhanVuKhanhTien_SE1703_A02_BE/BLL/Services/NewsArticleService.cs:56-83 | the new row (status 1, creator = modifier = caller, both dates `now`, the next identity id) is saved first; if that save is refused nothing changes; otherwise one link per tag id is saved second, and if that save is refused the article stays without links |
| NewsStore.NewsArticleService.Update | PhanVuKhanhTien_SE1703_A02_BE/BLL/Services/NewsArticleService.cs:85-109 | a missing id returns false and changes nothing; otherwise the fields are overwritten, all links of the article are replaced by one per tag id, and one save commits both or neither |
| NewsStore.NewsArticleService.Delete | PhanVuKhanhTien_SE1703_A02_BE/BLL/Services/NewsArticleService.cs:111-123 | returns true exactly when the article exists, and then the row and all its links are gone |
| NewsStore.StageLinks | PhanVuKhanhTien_SE1703_A02_BE/BLL/Services/NewsArticleService.cs:76-79 | the loop appends one link (id, tag) per tag id, in the order of the list |
| NewsStore.SortNewestFirst | PhanVuKhanhTien_SE1703_A02_BE/BLL/Services/NewsArticleService.cs:30 | `OrderByDescending(CreatedDate)`: the result is sorted newest first and is a permutation of its input |
| NewsStore.SortedFilterIsListing | PhanVuKhanhTien_SE1703_A02_BE/BLL/Services/NewsArticleService.cs:19-30 | where-then-order gives exactly the rows meeting the condition, with their count in the table, newest first |
| NewsStore.ArticleSaveAccepted | PhanVuKhanhTien_SE1703_A02_BE/BLL/Services/NewsArticleService.cs:72-73 | Create's first save succeeds if and only if the category exists and the title fits 200 characters |
| NewsStore.CreateAccepted | PhanVuKhanhTien_SE1703_A02_BE/BLL/Services/NewsArticleService.cs:56-83 | the link save then succeeds if and only if the tag ids are distinct and all name stored tags; afterwards the new article's links are exactly one per tag id |
| NewsStore.AppendLinksUnique | PhanVuKhanhTien_SE1703_A02_BE/DAL/NewsManagementDbContext.cs:48 | adding links for an article that has none keeps the link key unique if and only if the tag ids are distinct |
| NewsStore.AppendLinksResolve | PhanVuKhanhTien_SE1703_A02_BE/DAL/NewsManagementDbContext.cs:49-54 | the added links resolve if and only if every tag id names a stored tag |
| NewsStore.UpdateAccepted | PhanVuKhanhTien_SE1703_A02_BE/BLL/Services/NewsArticleService.cs:85-109 | for an existing article, Update's save succeeds if and only if the category exists, the title fits, and the tag ids are distinct stored tags |
| NewsStore.UpdatedRowOf | PhanVuKhanhTien_SE1703_A02_BE/BLL/Services/NewsArticleService.cs:90-96 | the updated row carries the new title, headline, content, source, category, modification time and modifier, and keeps its status, creation date and creator |
| NewsStore.UpdateRowsIds | PhanVuKhanhTien_SE1703_A02_BE/BLL/Services/NewsArticleService.cs:90-96 | updating fields neither adds nor removes an article id and keeps ids unique |
| NewsStore.UpdateRowsRules | PhanVuKhanhTien_SE1703_A02_BE/BLL/Services/NewsArticleService.cs:90-96 | the updated rows satisfy the category and title-length rules if and only if the new category exists and the new title fits |
| NewsStore.ReplaceLinksOf | PhanVuKhanhTien_SE1703_A02_BE/BLL/Services/NewsArticleService.cs:99-105 | after the replacement the article's links are exactly one per tag id, in order; every other article's links are unchanged |
| NewsStore.AddedLinksOf | PhanVuKhanhTien_SE1703_A02_BE/BLL/Services/NewsArticleService.cs:76-79 | links added for a fresh article are its only links; other articles' links are unchanged |
| NewsStore.FreshArticleHasNoLinks | PhanVuKhanhTien_SE1703_A02_BE/DAL/NewsManagementDbContext.cs:51 | in a well-formed database an id with no article has no links |
| NewsStore.DeletePreservesWellFormed | PhanVuKhanhTien_SE1703_A02_BE/BLL/Services/NewsArticleService.cs:116-121 | removing an article with its links keeps every schema rule, so Delete's save never fails |
| NewsStore.DeleteRemovesOnly | PhanVuKhanhTien_SE1703_A02_BE/BLL/Services/NewsArticleService.cs:111-123 | after Delete the id and its links are gone, every other article and link remains, and the other tables are untouched |
| NewsStore.KeptLinksResolve | PhanVuKhanhTien_SE1703_A02_BE/BLL/Services/NewsArticleService.cs:99-100 | the links Update keeps still resolve when the set of article ids is unchanged |
| NewsStore.LinksOfLinksNotOf | PhanVuKhanhTien_SE1703_A02_BE/BLL/Services/NewsArticleService.cs:99-100 | removing an article's links leaves it none and leaves every other article's links as they were |
| AccountStore.AccountService.Authenticate | PhanVuKhanhTien_SE1703_A02_BE/BLL/Services/AccountService.cs:15-18 | `None` exactly when no account has both the email and the password; otherwise a stored account with both |
| AccountStore.FirstWithCredentials | PhanVuKhanhTien_SE1703_A02_BE/BLL/Services/AccountService.cs:17 | `FirstOrDefault`: the result is the first row, in table order, with these credentials |
| AccountStore.AccountService.GetAll | PhanVuKhanhTien_SE1703_A02_BE/BLL/Services/AccountService.cs:20-23 | every account, in table order |
| AccountStore.AccountService.GetById | PhanVuKhanhTien_SE1703_A02_BE/BLL/Services/AccountService.cs:25-28 | present exactly when an account has the id, and then it is that stored account |
| AccountStore.AccountService.Search | PhanVuKhanhTien_SE1703_A02_BE/BLL/Services/AccountService.cs:58-66 | exactly the accounts whose name contains the name and whose email contains the email (a null or empty condition holds of all), each as often as in the table; with both empty, the table itself |
| AccountStore.SearchCounts | PhanVuKhanhTien_SE1703_A02_BE/BLL/Services/AccountService.cs:60-65 | narrowing by name and then by email keeps exactly the rows meeting both conditions, with their counts |
| AccountStore.AccountService.Add | PhanVuKhanhTien_SE1703_A02_BE/BLL/Services/AccountService.cs:30-34 | appends the account with its own id; the save succeeds exactly when the schema accepts the result, otherwise nothing changes |
| AccountStore.AddAccepted | PhanVuKhanhTien_SE1703_A02_BE/BLL/Services/AccountService.cs:30-34 | Add succeeds if and only if the id is not taken and the name fits 100 characters |
| AccountStore.AddThenGetById | PhanVuKhanhTien_SE1703_A02_BE/BLL/Services/AccountService.cs:25-34 | after a successful Add, lookup by its id finds the account |
| AccountStore.AccountService.Update | PhanVuKhanhTien_SE1703_A02_BE/BLL/Services/AccountService.cs:36-40 | overwrites the row with the account's id; fails, changing nothing, when no row has that id or the result breaks a rule |
| AccountStore.UpdateAccepted | PhanVuKhanhTien_SE1703_A02_BE/BLL/Services/AccountService.cs:36-40 | the update of an existing account succeeds if and only if the new name fits 100 characters |
| AccountStore.UpdateThenGetById | PhanVuKhanhTien_SE1703_A02_BE/BLL/Services/AccountService.cs:25-40 | after Update, lookup by the id gives the new account, and every other account is kept |
| AccountStore.AccountService.Delete | PhanVuKhanhTien_SE1703_A02_BE/BLL/Services/AccountService.cs:42-56 | true exactly when the account exists and has created no article, and then only that row is removed; a missing account and one with articles both give false |
| AccountStore.DeleteAccountAccepted | PhanVuKhanhTien_SE1703_A02_BE/BLL/Services/AccountService.cs:53-54 | removing an account keeps the schema rules, so that save never fails |
| AccountStore.DeleteThenGetById | PhanVuKhanhTien_SE1703_A02_BE/BLL/Services/AccountService.cs:25-56 | after deletion the id is no longer found |
| AuthApi.GetRoleName | PhanVuKhanhTien_SE1703_A02_BE/API/Controllers/AuthController.cs:38-46 | code 1 is "Staff", code 2 is "Lecturer", any other code is the configured admin role or "Admin" |
| AuthApi.LecturerOnlyForCodeTwo | PhanVuKhanhTien_SE1703_A02_BE/API/Controllers/AuthController.cs:38-46 | unless the admin role is configured as "Lecturer", the name is "Lecturer" if and only if the code is 2 |
| AuthApi.GenerateJwtToken | PhanVuKhanhTien_SE1703_A02_BE/API/Controllers/AuthController.cs:48-69 | the token expires the configured number of minutes after `now` and carries the email as subject, the name, the role and the account id in decimal |
| AuthApi.FindFirst | PhanVuKhanhTien_SE1703_A02_BE/API/Controllers/NewsArticlesController.cs:49 | `FindFirst` is absent exactly when no claim has the type; otherwise it is the value of a claim of that type |
| AuthApi.Login | PhanVuKhanhTien_SE1703_A02_BE/API/Controllers/AuthController.cs:24-36 | 401 "Invalid credentials" exactly when authentication fails; otherwise the role name of the account's code and a token for that account and role |
| AuthApi.LoginTokenOfCaller | PhanVuKhanhTien_SE1703_A02_BE/API/Controllers/AuthController.cs:24-36 | a successful login's token has the caller's email as subject, the reported role, and the name of an account with exactly those credentials |
| AuthApi.AccountIdClaimParses | PhanVuKhanhTien_SE1703_A02_BE/API/Controllers/AuthController.cs:55 | the "AccountId" claim written into a token parses back to the account's id |
| Decimal.ParseIntToString | PhanVuKhanhTien_SE1703_A02_BE/API/Controllers/NewsArticlesController.cs:49 | `int.Parse(i.ToString())` gives back every 32-bit `i` |
| Decimal.ParseInt32 | PhanVuKhanhTien_SE1703_A02_BE/API/Controllers/NewsArticlesController.cs:49 | a successful `int.Parse` gives a 32-bit value |
| NewsApi.Authorize | PhanVuKhanhTien_SE1703_A02_BE/API/Controllers/NewsArticlesController.cs:20-75 | 401 exactly for an anonymous caller of a protected action; 403 exactly for an authenticated caller holding none of the listed roles; otherwise the action runs |
| NewsApi.ActingAccountId | PhanVuKhanhTien_SE1703_A02_BE/API/Controllers/NewsArticlesController.cs:49 | a missing "AccountId" claim counts as account 0; a present one is parsed, and text that does not parse is a failure |
| NewsApi.MissingAccountIdIsZero | PhanVuKhanhTien_SE1703_A02_BE/API/Controllers/NewsArticlesController.cs:49 | a token with no account id claim acts as account 0 |
| NewsApi.CreateResult | PhanVuKhanhTien_SE1703_A02_BE/API/Controllers/NewsArticlesController.cs:50-51 | 201 pointing at the new article's id exactly when Create completed; 500 when a save threw |
| NewsApi.UpdateResult | PhanVuKhanhTien_SE1703_A02_BE/API/Controllers/NewsArticlesController.cs:59-61 | 404 exactly for false, 204 exactly for true, 500 exactly when the save threw |
| NewsApi.DeleteResult | PhanVuKhanhTien_SE1703_A02_BE/API/Controllers/NewsArticlesController.cs:68-70 | 404 exactly for false, 204 exactly for true |
| NewsApi.NewsArticlesController.GetActiveNews | PhanVuKhanhTien_SE1703_A02_BE/API/Controllers/NewsArticlesController.cs:19-25 | anyone, anonymous included, gets 200 with the public listing |
| NewsApi.NewsArticlesController.GetAll | PhanVuKhanhTien_SE1703_A02_BE/API/Controllers/NewsArticlesController.cs:28-34 | 401 when anonymous, otherwise 200 with the full listing |
| NewsApi.NewsArticlesController.GetById | PhanVuKhanhTien_SE1703_A02_BE/API/Controllers/NewsArticlesController.cs:36-43 | 401 when anonymous; for a signed-in caller 404 exactly when no article has the id, and 200 with the stored article whenever one has it |
| NewsApi.NewsArticlesController.GetMyNews | PhanVuKhanhTien_SE1703_A02_BE/API/Controllers/NewsArticlesController.cs:74-81 | 401 for an anonymous caller, 403 for a signed-in caller not in role Staff, 500 for a Staff caller whose account id does not parse; 200 exactly for a caller in role Staff whose account id parses, and then the articles that account created |
| NewsApi.NewsArticlesController.Create | PhanVuKhanhTien_SE1703_A02_BE/API/Controllers/NewsArticlesController.cs:45-52 | a refused caller gets 401/403 and an invalid body 400, with nothing changed; an unparsable account id gives 500, with nothing changed; past these gates, 201 with the new article exactly when both saves succeed and 500 otherwise, and the tables are then the old ones (article refused), the old ones plus the article (links refused) or the old ones plus the article and its links; the creator is the acting account |
| NewsApi.NewsArticlesController.Update | PhanVuKhanhTien_SE1703_A02_BE/API/Controllers/NewsArticlesController.cs:54-62 | the same gates, with nothing changed; past them, 404 exactly for a missing id, 204 exactly when the rewritten tables satisfy the schema, and 500 otherwise; after 204 the tables are the rewritten ones, after 404 or 500 they are unchanged |
| NewsApi.NewsArticlesController.Delete | PhanVuKhanhTien_SE1703_A02_BE/API/Controllers/NewsArticlesController.cs:64-71 | the same role gate, with nothing changed; then 404 exactly when the id is missing, with nothing changed, and 204 exactly when it existed, with that article and its links removed |
| NewsApi.RoleClaimOfToken | PhanVuKhanhTien_SE1703_A02_BE/API/Controllers/AuthController.cs:50-56 | an issued token holds a role claim for exactly one role, the one it was issued for |
| NewsApi.LecturerForbidden | PhanVuKhanhTien_SE1703_A02_BE/API/Controllers/NewsArticlesController.cs:46 | a signed-in Lecturer (code 2) gets 403 from the Staff-or-Admin actions |
| NewsApi.AnonymousUnauthorized | PhanVuKhanhTien_SE1703_A02_BE/API/Controllers/NewsArticlesController.cs:29 | an anonymous caller of any protected action gets 401 |
| NewsApi.MyNewsOfLoggedInStaff | PhanVuKhanhTien_SE1703_A02_BE/API/Controllers/NewsArticlesController.cs:74-81 | a Staff member who logged in gets exactly the articles they created, newest first |
| AuthSession.AuthService.SetCurrentUser | PhanVuKhanhTien_SE1703_A02_FE/client/src/services/auth.service.ts:20-23 | stores the serialised user under 'user' and `String(user.token)` under 'token'; no other key changes |
| AuthSession.AuthService.GetCurrentUser | PhanVuKhanhTien_SE1703_A02_FE/client/src/services/auth.service.ts:15-18 | reads the store as `CurrentUserOf` states: null for a missing or empty 'user', otherwise the parsed text |
| AuthSession.AuthService.Logout | PhanVuKhanhTien_SE1703_A02_FE/client/src/services/auth.service.ts:10-13 | removes 'token' and 'user' and nothing else |
| AuthSession.CurrentUserOf | PhanVuKhanhTien_SE1703_A02_FE/client/src/services/auth.service.ts:15-18 | a missing 'user' gives null; non-empty text gives what `JSON.parse` gives, which fails for text that is not JSON |
| AuthSession.StringOf | PhanVuKhanhTien_SE1703_A02_FE/client/src/services/auth.service.ts:22 | `setItem` stores a string token as is and a missing token as "undefined" |
| AuthSession.CurrentUserAfterSet | PhanVuKhanhTien_SE1703_A02_FE/client/src/services/auth.service.ts:15-23 | reading the current user after storing `u` gives `u` back |
| AuthSession.TokenAfterSet | PhanVuKhanhTien_SE1703_A02_FE/client/src/services/auth.service.ts:22 | the stored token is the user's string token |
| AuthSession.CurrentUserAfterLogout | PhanVuKhanhTien_SE1703_A02_FE/client/src/services/auth.service.ts:10-18 | after logout neither key is present and the current user is a falsy null |
| AuthSession.OtherKeysKept | PhanVuKhanhTien_SE1703_A02_FE/client/src/services/auth.service.ts:10-23 | storing a user and logging out leave every other key as it was |
| AuthSession.LocalStorage.SetItem | PhanVuKhanhTien_SE1703_A02_FE/client/src/services/auth.service.ts:21-22 | the key maps to the value and every other key is unchanged |
| AuthSession.LocalStorage.RemoveItem | PhanVuKhanhTien_SE1703_A02_FE/client/src/services/auth.service.ts:11-12 | the key is gone and every other key is unchanged |
| Json.ParseStringify | PhanVuKhanhTien_SE1703_A02_FE/client/src/services/auth.service.ts:17-21 | `JSON.parse(JSON.stringify(d))` gives `d` for every flat document |
| Json.Property | PhanVuKhanhTien_SE1703_A02_FE/client/src/components/protected-route.tsx:17 | a property is defined only on an object, and is the value of a member with that name |
| ProtectedRoute.Guard | PhanVuKhanhTien_SE1703_A02_FE/client/src/components/protected-route.tsx:10-27 | a falsy user goes to "/login"; a user whose numeric `accountRole` is allowed sees the page; otherwise "/admin/dashboard" exactly for the admin code and "/staff/dashboard" for all others; each case is an if-and-only-if |
| ProtectedRoute.LoggedOutGoesToLogin | PhanVuKhanhTien_SE1703_A02_FE/client/src/components/protected-route.tsx:13-15 | after logout every guarded page redirects to "/login" |
| ProtectedRoute.StoredUserRouted | PhanVuKhanhTien_SE1703_A02_FE/client/src/components/protected-route.tsx:17-26 | a stored user object with role code `c` sees the page when `c` is allowed, else goes to the admin dashboard for the admin code and to the staff dashboard otherwise |
| ProtectedRoute.LoginBodyGoesToStaffDashboard | PhanVuKhanhTien_SE1703_A02_FE/client/src/components/protected-route.tsx:17-23 | the body the backend's login returns, `{ token, role }`, has no `accountRole`; stored as the user, it is sent to "/staff/dashboard" for every page and role |
| NewsArticleForm.HandleTagToggle | PhanVuKhanhTien_SE1703_A02_FE/client/src/pages/news-article-management.tsx:145-158 | only the tag list changes; an undefined list is treated as empty |
| NewsArticleForm.ToggleRemoves | PhanVuKhanhTien_SE1703_A02_FE/client/src/pages/news-article-management.tsx:147-151 | toggling a listed id removes every copy of it and keeps each other id as often as before, in its order |
| NewsArticleForm.ToggleAppends | PhanVuKhanhTien_SE1703_A02_FE/client/src/pages/news-article-management.tsx:152-156 | toggling an unlisted id appends it after the unchanged existing ids |
| NewsArticleForm.ToggleFlips | PhanVuKhanhTien_SE1703_A02_FE/client/src/pages/news-article-management.tsx:145-158 | a toggle flips membership of that id and leaves membership of every other id unchanged |
| NewsArticleForm.ToggleTwice | PhanVuKhanhTien_SE1703_A02_FE/client/src/pages/news-article-management.tsx:145-158 | toggling an unlisted id twice gives the original list |
| NewsArticleForm.ToggleUndefined | PhanVuKhanhTien_SE1703_A02_FE/client/src/pages/news-article-management.tsx:146 | toggling on an undefined list gives the one-element list |
| NewsArticleForm.FilterIsSubsequence | PhanVuKhanhTien_SE1703_A02_FE/client/src/pages/news-article-management.tsx:150 | `filter(id => id !== tagId)` keeps the remaining ids in their order |
| NewsArticleForm.CreateForm | PhanVuKhanhTien_SE1703_A02_FE/client/src/pages/news-article-management.tsx:79-87 | empty texts, status 1, no tags, no id, and the first category's id (0 without categories) |
| NewsArticleForm.FirstCategoryId | PhanVuKhanhTien_SE1703_A02_FE/client/src/pages/news-article-management.tsx:85 | the first category's id, or 0 when the list is empty |
| NewsArticleForm.EditForm | PhanVuKhanhTien_SE1703_A02_FE/client/src/pages/news-article-management.tsx:93-102 | the article's id and fields, and its links' tag ids in order, or no tags when the links are absent |
| NewsArticleForm.TagIdsOf | PhanVuKhanhTien_SE1703_A02_FE/client/src/pages/news-article-management.tsx:101 | `newsTags.map(nt => nt.tagId)`: same length, one tag id per link in order |
| NewsArticleForm.EditedTagsKeepLinks | PhanVuKhanhTien_SE1703_A02_FE/client/src/pages/news-article-management.tsx:101 | saving an edit form with untouched tags asks Update for exactly the links the article already has |

## Left out

- `JSON.stringify`/`JSON.parse` are modelled only for scalars and flat objects. The model has no nested values, no white space and no non-integer numbers. Its integers are unbounded: JavaScript writes numbers from 1e21 up in exponent form and loses integer precision beyond 2^53, which only matters far outside 32-bit ids and role codes. Surrogate pairs and `\u` escapes of non-control characters are not written out.
- Json.Parse leaves duplicate member names in the member list, where JavaScript keeps only the last. A JavaScript object never has duplicates.
- AccountStore.FirstWithCredentials, AccountStore.AccountService.Search and Text.Contains compare characters exactly and case-sensitively. Under a case-insensitive database collation the source's `==` and `Contains` ignore case, for Authenticate's password too.
- AuthSession.AuthService.SetCurrentUser is not modelled for a `null` user, which the TypeScript type excludes: JavaScript would store "null" under 'user' and then throw at `user.token`, where the model stores "undefined" under 'token'.
- Decimal.ParseInt32 does not skip the leading and trailing white space that `int.Parse` allows. It also ignores culture settings.
- AuthApi.FindFirst compares claim types exactly. .NET compares them case-insensitively.
- JWT signing, serialisation and validation are not modelled (key, algorithm, `WriteToken`, middleware validation, inbound claim-type mapping, clock skew). The token is its claims, issuer, audience and expiry.
- AuthApi.GenerateJwtToken takes the expiry as an integer number of minutes. The source uses `double.Parse` of the configuration value and the JWT `exp` in whole seconds.
- One `now` serves both `DateTime.Now` reads of Create (created and modified date). The source reads the clock twice.
- `Include`/`ThenInclude` navigation loading is not modelled. Listings return article rows, not object graphs.
- The model drops the `CreatedById` and `UpdatedById` foreign keys. DAL/Models/NewsArticle.cs:16-22 declares them with `[ForeignKey]`, and both columns are non-nullable, so Entity Framework treats both as required keys to SystemAccount; the delete behaviour along two paths to one table is left to the database. Two consequences follow.
- NewsApi.NewsArticlesController.Create and NewsApi.NewsArticlesController.Update answer 201 or 204 even when the acting account does not exist (the account 0 of a token without an id claim, or an account deleted since login); the source's save fails there and it answers 500.
- AccountStore.DeleteAccountAccepted states that removing an account never fails the save only because these two keys are dropped; in the source, deleting an account still named as creator or modifier of an article is refused or cascades, as the database decides.
- AccountStore.AccountService.Delete answers true for an account that created no article even when it is the modifier of some article; there the source's save can be refused by the database, because of the dropped `UpdatedById` key.
- Account ids: Add keeps the id the caller supplies. Identity generation and `IDENTITY_INSERT` rules for accounts are not modelled.
- EF change tracking is not modelled. Adding two links with the same (article, tag) pair throws in `Add` before the save; the model refuses it at the save, with the same outcome. Update's remove-then-re-add of an unchanged link is the final state only.
- Column lengths are counted in characters, not UTF-16 code units.
- Text.IsWhiteSpace knows the Latin-1 white-space characters. The rest of Unicode's are not included.
- The article identity counter is unbounded. 32-bit overflow of ids is not modelled.
- ASP.NET binding failures other than the data annotations are not modelled (for example a non-numeric route id).
- Server-side exceptions become `ServerError500`. The model has no exception types and no exception messages; the only message modelled is the 401 text of the login endpoint.
- HTTP clients, axios, React rendering and state setters, routing tables, and page components other than the three modelled above are left out. So are dependency-injection lifetimes and service singletons.
- The category delete guard and the date-range report are not modelled. Their backend code is not part of this model, and only frontend callers of them exist in it.
- The duplicate login in BLL/Repository.cs is not modelled.
- The frontend's role labels (client/src/pages/profile.tsx:133, client/src/pages/account-management.tsx:142-144) disagree with the backend's GetRoleName. Only the backend mapping is modelled.
- The backend login answers `{ token, role }`, while the frontend stores the body as a user with `accountRole`. ProtectedRoute.LoginBodyGoesToStaffDashboard states the result. Which side is meant to change is not evident, so there is no corrected model.
- ProtectedRoute.Guard takes the admin code as a parameter. client/src/constants/role.constants.ts is not part of this model.
