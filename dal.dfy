/** The data layer: the five entity types, the tables of the database context, and the
    schema rules the context configures (primary keys, the composite key of the link
    table, foreign keys and column lengths). A save that would break one of those rules
    is refused by the database and leaves the tables as they were. */
module Dal {
  import opened Wrappers

  datatype SystemAccount = SystemAccount(
    accountId: int,
    accountname: string,
    accountEmail: string,
    accountRole: int,
    accountPassword: string)

  datatype Category = Category(
    categoryId: int,
    categoryName: string,
    categoryDescription: string,
    parentCategoryId: int,
    isActive: int)

  datatype Tag = Tag(tagId: int, tagName: string, note: Option<string>)

  /** Times are ticks of 100 nanoseconds, as `DateTime` counts them. */
  datatype NewsArticle = NewsArticle(
    newsArticleId: int,
    newsTitle: string,
    headline: string,
    newsContent: string,
    newsSource: string,
    newsStatus: int,
    categoryId: int,
    createdDate: int,
    createdById: int,
    modifiedDate: int,
    updatedById: int)

  /** One row of the article-tag link table. */
  datatype NewsTag = NewsTag(newsArticleId: int, tagId: int)

  /** The content of the five tables, each in table order. */
  datatype Tables = Tables(
    systemAccounts: seq<SystemAccount>,
    newsArticles: seq<NewsArticle>,
    newsTags: seq<NewsTag>,
    tags: seq<Tag>,
    categories: seq<Category>)

  const MaxAccountnameLength := 100
  const MaxNewsTitleLength := 200
  const MaxTagNameLength := 50
  const MaxCategoryNameLength := 100

  predicate HasAccount(accounts: seq<SystemAccount>, id: int) {
    exists a :: a in accounts && a.accountId == id
  }

  predicate HasArticle(articles: seq<NewsArticle>, id: int) {
    exists a :: a in articles && a.newsArticleId == id
  }

  predicate HasTag(tags: seq<Tag>, id: int) {
    exists t :: t in tags && t.tagId == id
  }

  predicate HasCategory(categories: seq<Category>, id: int) {
    exists c :: c in categories && c.categoryId == id
  }

  // Primary keys

  predicate UniqueAccountIds(s: seq<SystemAccount>) {
    forall i, j :: 0 <= i < j < |s| ==> s[i].accountId != s[j].accountId
  }

  predicate UniqueArticleIds(s: seq<NewsArticle>) {
    forall i, j :: 0 <= i < j < |s| ==> s[i].newsArticleId != s[j].newsArticleId
  }

  predicate UniqueTagIds(s: seq<Tag>) {
    forall i, j :: 0 <= i < j < |s| ==> s[i].tagId != s[j].tagId
  }

  predicate UniqueCategoryIds(s: seq<Category>) {
    forall i, j :: 0 <= i < j < |s| ==> s[i].categoryId != s[j].categoryId
  }

  /** The link table is keyed by the pair (article, tag). */
  predicate UniqueLinks(s: seq<NewsTag>) {
    forall i, j :: 0 <= i < j < |s| ==> s[i] != s[j]
  }

  // Foreign keys

  predicate LinksResolve(t: Tables) {
    forall l :: l in t.newsTags ==> HasArticle(t.newsArticles, l.newsArticleId) && HasTag(t.tags, l.tagId)
  }

  predicate CategoriesResolve(t: Tables) {
    forall a :: a in t.newsArticles ==> HasCategory(t.categories, a.categoryId)
  }

  // Column lengths

  predicate LengthsFit(t: Tables) {
    && (forall a :: a in t.systemAccounts ==> |a.accountname| <= MaxAccountnameLength)
    && (forall a :: a in t.newsArticles ==> |a.newsTitle| <= MaxNewsTitleLength)
    && (forall g :: g in t.tags ==> |g.tagName| <= MaxTagNameLength)
    && (forall c :: c in t.categories ==> |c.categoryName| <= MaxCategoryNameLength)
  }

  /** Every rule of the schema; the database accepts a save exactly when the tables it
      would leave satisfy this. */
  predicate WellFormed(t: Tables) {
    && UniqueAccountIds(t.systemAccounts)
    && UniqueArticleIds(t.newsArticles)
    && UniqueLinks(t.newsTags)
    && UniqueTagIds(t.tags)
    && UniqueCategoryIds(t.categories)
    && LinksResolve(t)
    && CategoriesResolve(t)
    && LengthsFit(t)
  }

  /** The database context: one table per entity set, plus the identity counter that
      numbers new news articles. */
  class NewsManagementDbContext {
    var systemAccounts: seq<SystemAccount>
    var newsArticles: seq<NewsArticle>
    var newsTags: seq<NewsTag>
    var tags: seq<Tag>
    var categories: seq<Category>
    var nextNewsArticleId: int

    function Snapshot(): (t: Tables)
      reads this
      ensures t.newsArticles == newsArticles && t.newsTags == newsTags
      ensures t.systemAccounts == systemAccounts && t.tags == tags && t.categories == categories
    {
      Tables(systemAccounts, newsArticles, newsTags, tags, categories)
    }

    /** The tables satisfy the schema and every article id lies below the identity
        counter, so the counter's value is free. */
    predicate Valid()
      reads this
    {
      && WellFormed(Snapshot())
      && 1 <= nextNewsArticleId
      && forall a :: a in newsArticles ==> a.newsArticleId < nextNewsArticleId
    }

    /** The context over an empty database. */
    constructor ()
      ensures Valid()
      ensures Snapshot() == Tables([], [], [], [], [])
    {
      systemAccounts, newsArticles, newsTags, tags, categories := [], [], [], [], [];
      nextNewsArticleId := 1;
    }

    /** `SaveChanges`: the pending state `next` is written when the schema accepts it;
        otherwise the database is left as it was and `saved` is false (the call throws). */
    method SaveChanges(next: Tables) returns (saved: bool)
      requires Valid()
      requires forall a :: a in next.newsArticles ==> a.newsArticleId < nextNewsArticleId
      modifies this
      ensures Valid()
      ensures saved == WellFormed(next)
      ensures Snapshot() == if saved then next else old(Snapshot())
      ensures nextNewsArticleId == old(nextNewsArticleId)
    {
      saved := WellFormed(next);
      if saved {
        systemAccounts, newsArticles, newsTags, tags, categories :=
          next.systemAccounts, next.newsArticles, next.newsTags, next.tags, next.categories;
      }
    }

    /** The identity column hands out the next article id. */
    method TakeNewsArticleId() returns (id: int)
      requires Valid()
      modifies this`nextNewsArticleId
      ensures Valid()
      ensures id == old(nextNewsArticleId) && nextNewsArticleId == id + 1
      ensures !HasArticle(newsArticles, id)
    {
      id := nextNewsArticleId;
      nextNewsArticleId := nextNewsArticleId + 1;
    }
  }
}
