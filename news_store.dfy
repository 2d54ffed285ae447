/** The news article service: listings over the article table, lookup by id, and the
    three operations that change the article and link tables. */
module NewsStore {
  import opened Wrappers
  import opened Text
  import opened Dal
  import opened Listing

  /** The request body of both create and update; the two DTO classes have the same
      fields and the same validation attributes. */
  datatype NewsArticleDto = NewsArticleDto(
    newsTitle: string,
    headline: string,
    newsContent: string,
    newsSource: string,
    categoryId: int,
    tagIds: seq<int>)

  /** The data annotations of the DTO: every `[Required]` string is neither null nor
      white space only, and the title has at most 200 characters (`[StringLength(200)]`).
      `[Required]` on the integer category id always holds. */
  predicate DtoValid(dto: NewsArticleDto) {
    && !IsBlank(dto.newsTitle) && |dto.newsTitle| <= 200
    && !IsBlank(dto.headline)
    && !IsBlank(dto.newsContent)
    && !IsBlank(dto.newsSource)
  }

  // ---------------------------------------------------------------------------
  // Listings

  const ActiveStatus := 1

  /** The search condition: a null or empty search keeps every article; otherwise the
      title or the content must contain it. */
  predicate MatchesSearch(a: NewsArticle, search: Option<string>) {
    IsNullOrEmpty(search) || Contains(a.newsTitle, search.value) || Contains(a.newsContent, search.value)
  }

  /** The conditions of the three listings, as the `Where` clauses state them. */
  function ActiveAndMatching(search: Option<string>): NewsArticle -> bool {
    (a: NewsArticle) => a.newsStatus == ActiveStatus && MatchesSearch(a, search)
  }

  function Matching(search: Option<string>): NewsArticle -> bool {
    (a: NewsArticle) => MatchesSearch(a, search)
  }

  function CreatedBy(creatorId: int): NewsArticle -> bool {
    (a: NewsArticle) => a.createdById == creatorId
  }

  function OtherThan(id: int): NewsArticle -> bool {
    (a: NewsArticle) => a.newsArticleId != id
  }

  /** `OrderByDescending(na => na.CreatedDate)` holds of the sequence. */
  predicate NewestFirst(s: seq<NewsArticle>) {
    forall i, j :: 0 <= i < j < |s| ==> s[i].createdDate >= s[j].createdDate
  }

  function InsertNewestFirst(x: NewsArticle, s: seq<NewsArticle>): (r: seq<NewsArticle>)
    requires NewestFirst(s)
    ensures NewestFirst(r)
    ensures multiset(r) == multiset(s) + multiset{x}
    ensures forall y :: y in r ==> y in s || y == x
  {
    if s == [] then [x]
    else if s[0].createdDate <= x.createdDate then
      assert forall k :: 0 <= k < |s| ==> s[0].createdDate >= s[k].createdDate;
      [x] + s
    else
      var rest := InsertNewestFirst(x, s[1..]);
      assert s == [s[0]] + s[1..];
      HeadIsNewest(s, x, rest);
      [s[0]] + rest
  }

  lemma HeadIsNewest(s: seq<NewsArticle>, x: NewsArticle, rest: seq<NewsArticle>)
    requires s != [] && NewestFirst(s) && NewestFirst(rest)
    requires x.createdDate < s[0].createdDate
    requires forall y :: y in rest ==> y in s[1..] || y == x
    ensures NewestFirst([s[0]] + rest)
  {
    var r := [s[0]] + rest;
    forall i, j | 0 <= i < j < |r|
      ensures r[i].createdDate >= r[j].createdDate
    {
      if i == 0 {
        assert r[j] == rest[j - 1];
        assert rest[j - 1] in rest;
        if r[j] != x {
          var k :| 0 <= k < |s[1..]| && s[1..][k] == r[j];
          assert s[k + 1] == r[j];
        }
      } else {
        assert r[i] == rest[i - 1] && r[j] == rest[j - 1];
      }
    }
  }

  /** The order of every listing: newest first, a permutation of its input. Articles
      with the same creation date come in no particular order. */
  function SortNewestFirst(s: seq<NewsArticle>): (r: seq<NewsArticle>)
    ensures NewestFirst(r)
    ensures multiset(r) == multiset(s)
  {
    if s == [] then []
    else
      assert s == [s[0]] + s[1..];
      InsertNewestFirst(s[0], SortNewestFirst(s[1..]))
  }

  /** The rows that a query `Where(keep).OrderByDescending(CreatedDate)` returns. */
  ghost predicate ListingOf(r: seq<NewsArticle>, table: seq<NewsArticle>, keep: NewsArticle -> bool) {
    NewestFirst(r) && forall a :: multiset(r)[a] == if keep(a) then multiset(table)[a] else 0
  }

  lemma SortedFilterIsListing(table: seq<NewsArticle>, keep: NewsArticle -> bool)
    ensures ListingOf(SortNewestFirst(Filter(table, keep)), table, keep)
    ensures forall a :: a in SortNewestFirst(Filter(table, keep)) <==> a in table && keep(a)
  {
    FilterCounts(table, keep);
    var r := SortNewestFirst(Filter(table, keep));
    forall a
      ensures a in r <==> a in table && keep(a)
    {
      assert a in r <==> multiset(r)[a] > 0;
      assert a in table <==> multiset(table)[a] > 0;
    }
  }

  /** The first article with the given id; ids are unique, so it is the only one. */
  function FindArticle(s: seq<NewsArticle>, id: int): (r: Option<NewsArticle>)
    ensures r.Some? <==> HasArticle(s, id)
    ensures r.Some? ==> r.value in s && r.value.newsArticleId == id
  {
    if s == [] then None
    else if s[0].newsArticleId == id then Some(s[0])
    else
      var r := FindArticle(s[1..], id);
      assert forall a :: a in s[1..] ==> a in s;
      assert forall a :: a in s && a != s[0] ==> a in s[1..];
      r
  }

  // ---------------------------------------------------------------------------
  // Links

  /** The link rows of article `id`, in table order. */
  function LinksOf(links: seq<NewsTag>, id: int): (r: seq<NewsTag>)
    ensures forall l :: l in r <==> l in links && l.newsArticleId == id
  {
    if links == [] then []
    else
      var rest := LinksOf(links[1..], id);
      assert links == [links[0]] + links[1..];
      if links[0].newsArticleId == id then [links[0]] + rest else rest
  }

  /** The link rows of every article but `id`: what `RemoveRange` of the article's
      links leaves. */
  function LinksNotOf(links: seq<NewsTag>, id: int): (r: seq<NewsTag>)
    ensures forall l :: l in r <==> l in links && l.newsArticleId != id
  {
    if links == [] then []
    else
      var rest := LinksNotOf(links[1..], id);
      assert links == [links[0]] + links[1..];
      if links[0].newsArticleId != id then [links[0]] + rest else rest
  }

  /** One new link row per entry of `tagIds`, in order. */
  function LinksFor(id: int, tagIds: seq<int>): (r: seq<NewsTag>)
    ensures |r| == |tagIds|
    ensures forall k :: 0 <= k < |r| ==> r[k].newsArticleId == id && r[k].tagId == tagIds[k]
  {
    if tagIds == [] then [] else [NewsTag(id, tagIds[0])] + LinksFor(id, tagIds[1..])
  }

  predicate Distinct(s: seq<int>) {
    forall i, j :: 0 <= i < j < |s| ==> s[i] != s[j]
  }

  /** Update's link replacement: all links of `id` removed, then one per tag id added. */
  function ReplaceLinks(links: seq<NewsTag>, id: int, tagIds: seq<int>): seq<NewsTag> {
    LinksNotOf(links, id) + LinksFor(id, tagIds)
  }

  // ---------------------------------------------------------------------------
  // Article rows

  /** The row that Create builds: status active, creator and modifier the caller,
      created and modified at `now`. */
  function NewArticle(id: int, dto: NewsArticleDto, createdById: int, now: int): NewsArticle {
    NewsArticle(id, dto.newsTitle, dto.headline, dto.newsContent, dto.newsSource, ActiveStatus,
                dto.categoryId, now, createdById, now, createdById)
  }

  /** The field assignments of Update on the tracked entity. */
  function UpdatedArticle(a: NewsArticle, dto: NewsArticleDto, updatedById: int, now: int): NewsArticle {
    a.(newsTitle := dto.newsTitle, headline := dto.headline, newsContent := dto.newsContent,
       newsSource := dto.newsSource, categoryId := dto.categoryId, modifiedDate := now,
       updatedById := updatedById)
  }

  function UpdateRows(s: seq<NewsArticle>, id: int, dto: NewsArticleDto, updatedById: int, now: int): (r: seq<NewsArticle>)
    ensures |r| == |s|
    ensures forall k :: 0 <= k < |s| ==>
      r[k] == if s[k].newsArticleId == id then UpdatedArticle(s[k], dto, updatedById, now) else s[k]
  {
    if s == [] then []
    else
      [if s[0].newsArticleId == id then UpdatedArticle(s[0], dto, updatedById, now) else s[0]]
      + UpdateRows(s[1..], id, dto, updatedById, now)
  }

  function WithoutArticle(s: seq<NewsArticle>, id: int): (r: seq<NewsArticle>)
    ensures forall a :: a in r <==> a in s && a.newsArticleId != id
  {
    FilterCounts(s, OtherThan(id));
    Filter(s, OtherThan(id))
  }

  // ---------------------------------------------------------------------------
  // The tables each operation leaves

  function WithArticle(t: Tables, news: NewsArticle): Tables {
    t.(newsArticles := t.newsArticles + [news])
  }

  function WithLinks(t: Tables, id: int, tagIds: seq<int>): Tables {
    t.(newsTags := t.newsTags + LinksFor(id, tagIds))
  }

  function UpdateTables(t: Tables, id: int, dto: NewsArticleDto, updatedById: int, now: int): Tables {
    t.(newsArticles := UpdateRows(t.newsArticles, id, dto, updatedById, now),
       newsTags := ReplaceLinks(t.newsTags, id, dto.tagIds))
  }

  function DeleteTables(t: Tables, id: int): Tables {
    t.(newsArticles := WithoutArticle(t.newsArticles, id), newsTags := LinksNotOf(t.newsTags, id))
  }

  /** How Create ends. The article is saved first and its links in a second save, so a
      failure of the second save leaves the article stored without links. Both failures
      are exceptions to the caller. */
  datatype CreateOutcome =
    | Created(news: NewsArticle)
    | ArticleRejected
    | TagsRejected(news: NewsArticle)

  /** How Update ends: `Saved(false)` for a missing id, `Saved(true)` after a successful
      save, `SaveFailed` when the save throws. */
  datatype UpdateOutcome = Saved(found: bool) | SaveFailed

  /** The `foreach` over the tag ids: one `NewsTags.Add` per id, appended to the links
      the context will write. */
  method StageLinks(links: seq<NewsTag>, id: int, tagIds: seq<int>) returns (pending: seq<NewsTag>)
    ensures pending == links + LinksFor(id, tagIds)
  {
    pending := links;
    var i := 0;
    while i < |tagIds|
      invariant 0 <= i <= |tagIds|
      invariant pending == links + LinksFor(id, tagIds[..i])
    {
      LinksForAppend(id, tagIds[..i], tagIds[i]);
      assert tagIds[..i + 1] == tagIds[..i] + [tagIds[i]];
      pending := pending + [NewsTag(id, tagIds[i])];
      i := i + 1;
    }
    assert tagIds[..i] == tagIds;
  }

  class NewsArticleService {
    const context: NewsManagementDbContext

    constructor (context: NewsManagementDbContext)
      ensures this.context == context
    {
      this.context := context;
    }

    /** The public listing: active articles that match the search, newest first. */
    function GetActiveNews(search: Option<string>): (r: seq<NewsArticle>)
      reads context
      ensures ListingOf(r, context.newsArticles, ActiveAndMatching(search))
      ensures forall a :: a in r <==> a in context.newsArticles && a.newsStatus == ActiveStatus && MatchesSearch(a, search)
    {
      var keep := ActiveAndMatching(search);
      SortedFilterIsListing(context.newsArticles, keep);
      SortNewestFirst(Filter(context.newsArticles, keep))
    }

    /** Every article that matches the search, newest first. */
    function GetAll(search: Option<string>): (r: seq<NewsArticle>)
      reads context
      ensures ListingOf(r, context.newsArticles, Matching(search))
      ensures IsNullOrEmpty(search) ==> multiset(r) == multiset(context.newsArticles)
    {
      var keep := Matching(search);
      SortedFilterIsListing(context.newsArticles, keep);
      if IsNullOrEmpty(search) then
        FilterAll(context.newsArticles, keep);
        SortNewestFirst(Filter(context.newsArticles, keep))
      else
        SortNewestFirst(Filter(context.newsArticles, keep))
    }

    function GetById(id: int): (r: Option<NewsArticle>)
      reads context
      ensures r.Some? <==> HasArticle(context.newsArticles, id)
      ensures r.Some? ==> r.value in context.newsArticles && r.value.newsArticleId == id
    {
      FindArticle(context.newsArticles, id)
    }

    /** The articles created by `creatorId`, newest first. */
    function GetByCreator(creatorId: int): (r: seq<NewsArticle>)
      reads context
      ensures ListingOf(r, context.newsArticles, CreatedBy(creatorId))
      ensures forall a :: a in r <==> a in context.newsArticles && a.createdById == creatorId
    {
      var keep := CreatedBy(creatorId);
      SortedFilterIsListing(context.newsArticles, keep);
      SortNewestFirst(Filter(context.newsArticles, keep))
    }

    /** Inserts the article under the next identity value, then one link per tag id. */
    method Create(dto: NewsArticleDto, createdById: int, now: int) returns (outcome: CreateOutcome)
      requires context.Valid()
      modifies context
      ensures context.Valid()
      ensures var t0 := old(context.Snapshot());
              var news := NewArticle(old(context.nextNewsArticleId), dto, createdById, now);
              var t1 := WithArticle(t0, news);
              var t2 := WithLinks(t1, news.newsArticleId, dto.tagIds);
              && outcome == (if !WellFormed(t1) then ArticleRejected
                             else if WellFormed(t2) then Created(news)
                             else TagsRejected(news))
              && context.Snapshot() == (if outcome.ArticleRejected? then t0
                                        else if outcome.TagsRejected? then t1
                                        else t2)
    {
      var t0 := context.Snapshot();
      var id := context.TakeNewsArticleId();
      var news := NewArticle(id, dto, createdById, now);
      var saved := context.SaveChanges(WithArticle(t0, news));
      if !saved {
        return ArticleRejected;
      }
      var t1 := context.Snapshot();
      var pending := StageLinks(t1.newsTags, id, dto.tagIds);
      saved := context.SaveChanges(t1.(newsTags := pending));
      outcome := if saved then Created(news) else TagsRejected(news);
    }

    /** Overwrites the scalar fields of article `id` and replaces its links. */
    method Update(id: int, dto: NewsArticleDto, updatedById: int, now: int) returns (outcome: UpdateOutcome)
      requires context.Valid()
      modifies context
      ensures context.Valid()
      ensures var t0 := old(context.Snapshot());
              var t1 := UpdateTables(t0, id, dto, updatedById, now);
              && outcome == (if !HasArticle(t0.newsArticles, id) then Saved(false)
                             else if WellFormed(t1) then Saved(true)
                             else SaveFailed)
              && context.Snapshot() == (if outcome == Saved(true) then t1 else t0)
    {
      var t0 := context.Snapshot();
      var news := FindArticle(context.newsArticles, id);
      if news.None? {
        return Saved(false);
      }
      var rows := UpdateRows(t0.newsArticles, id, dto, updatedById, now);
      var pending := StageLinks(LinksNotOf(t0.newsTags, id), id, dto.tagIds);
      UpdateRowsBelow(t0.newsArticles, id, dto, updatedById, now, context.nextNewsArticleId);
      var next := t0.(newsArticles := rows, newsTags := pending);
      assert next == UpdateTables(t0, id, dto, updatedById, now);
      var saved := context.SaveChanges(next);
      outcome := if saved then Saved(true) else SaveFailed;
    }

    /** Removes article `id` together with its links. */
    method Delete(id: int) returns (deleted: bool)
      requires context.Valid()
      modifies context
      ensures context.Valid()
      ensures deleted == HasArticle(old(context.newsArticles), id)
      ensures context.Snapshot() == if deleted then DeleteTables(old(context.Snapshot()), id) else old(context.Snapshot())
      ensures context.nextNewsArticleId == old(context.nextNewsArticleId)
    {
      var t0 := context.Snapshot();
      var news := FindArticle(context.newsArticles, id);
      if news.None? {
        return false;
      }
      DeletePreservesWellFormed(t0, id);
      deleted := context.SaveChanges(DeleteTables(t0, id));
    }
  }

  // ---------------------------------------------------------------------------
  // Lemmas

  lemma {:induction false} LinksForAppend(id: int, tagIds: seq<int>, x: int)
    ensures LinksFor(id, tagIds + [x]) == LinksFor(id, tagIds) + [NewsTag(id, x)]
  {
    if tagIds != [] {
      assert (tagIds + [x])[1..] == tagIds[1..] + [x];
      LinksForAppend(id, tagIds[1..], x);
    }
  }

  lemma UpdateRowsBelow(s: seq<NewsArticle>, id: int, dto: NewsArticleDto, updatedById: int, now: int, bound: int)
    requires forall a :: a in s ==> a.newsArticleId < bound
    ensures forall a :: a in UpdateRows(s, id, dto, updatedById, now) ==> a.newsArticleId < bound
  {
    var r := UpdateRows(s, id, dto, updatedById, now);
    forall a | a in r
      ensures a.newsArticleId < bound
    {
      var k :| 0 <= k < |r| && r[k] == a;
      assert s[k] in s;
    }
  }

  /** Removing an article and its links keeps every schema rule. */
  lemma DeletePreservesWellFormed(t: Tables, id: int)
    requires WellFormed(t)
    ensures WellFormed(DeleteTables(t, id))
  {
    var d := DeleteTables(t, id);
    FilterCounts(t.newsArticles, OtherThan(id));
    SubsequenceUniqueArticles(t.newsArticles, OtherThan(id));
    SubsequenceUniqueLinks(t.newsTags, id);
    forall l | l in d.newsTags
      ensures HasArticle(d.newsArticles, l.newsArticleId)
    {
      var a :| a in t.newsArticles && a.newsArticleId == l.newsArticleId;
      assert a in d.newsArticles;
    }
  }

  lemma {:induction false} SubsequenceUniqueArticles(s: seq<NewsArticle>, keep: NewsArticle -> bool)
    requires UniqueArticleIds(s)
    ensures UniqueArticleIds(Filter(s, keep))
  {
    if s != [] {
      SubsequenceUniqueArticles(s[1..], keep);
      FilterCounts(s[1..], keep);
      if keep(s[0]) {
        var r := Filter(s, keep);
        assert r == [s[0]] + Filter(s[1..], keep);
        forall j | 1 <= j < |r|
          ensures r[0].newsArticleId != r[j].newsArticleId
        {
          assert r[j] in s[1..];
        }
      }
    }
  }

  lemma {:induction false} SubsequenceUniqueLinks(s: seq<NewsTag>, id: int)
    requires UniqueLinks(s)
    ensures UniqueLinks(LinksNotOf(s, id))
  {
    if s != [] {
      SubsequenceUniqueLinks(s[1..], id);
      if s[0].newsArticleId != id {
        var r := LinksNotOf(s, id);
        assert r == [s[0]] + LinksNotOf(s[1..], id);
        forall j | 1 <= j < |r|
          ensures r[0] != r[j]
        {
          assert r[j] in s[1..];
        }
      }
    }
  }

  // ---------------------------------------------------------------------------
  // Links by article

  lemma {:induction false} LinksOfAppend(a: seq<NewsTag>, b: seq<NewsTag>, id: int)
    ensures LinksOf(a + b, id) == LinksOf(a, id) + LinksOf(b, id)
  {
    if a == [] {
      assert a + b == b;
    } else {
      assert (a + b)[0] == a[0] && (a + b)[1..] == a[1..] + b;
      LinksOfAppend(a[1..], b, id);
    }
  }

  lemma {:induction false} LinksOfLinksFor(id: int, tagIds: seq<int>, other: int)
    ensures LinksOf(LinksFor(id, tagIds), other) == if other == id then LinksFor(id, tagIds) else []
  {
    if tagIds != [] {
      LinksOfLinksFor(id, tagIds[1..], other);
      assert LinksFor(id, tagIds)[1..] == LinksFor(id, tagIds[1..]);
    }
  }

  lemma {:induction false} LinksOfLinksNotOf(links: seq<NewsTag>, id: int, other: int)
    ensures LinksOf(LinksNotOf(links, id), other) == if other == id then [] else LinksOf(links, other)
  {
    if links != [] {
      LinksOfLinksNotOf(links[1..], id, other);
      if links[0].newsArticleId != id {
        assert LinksNotOf(links, id) == [links[0]] + LinksNotOf(links[1..], id);
        assert ([links[0]] + LinksNotOf(links[1..], id))[1..] == LinksNotOf(links[1..], id);
      }
    }
  }

  /** After Update the links of article `id` are exactly one per entry of `tagIds`, in
      order, and the links of every other article are those it had. */
  lemma ReplaceLinksOf(links: seq<NewsTag>, id: int, tagIds: seq<int>, other: int)
    ensures LinksOf(ReplaceLinks(links, id, tagIds), id) == LinksFor(id, tagIds)
    ensures other != id ==> LinksOf(ReplaceLinks(links, id, tagIds), other) == LinksOf(links, other)
  {
    LinksOfAppend(LinksNotOf(links, id), LinksFor(id, tagIds), id);
    LinksOfAppend(LinksNotOf(links, id), LinksFor(id, tagIds), other);
    LinksOfLinksNotOf(links, id, id);
    LinksOfLinksNotOf(links, id, other);
    LinksOfLinksFor(id, tagIds, id);
    LinksOfLinksFor(id, tagIds, other);
  }

  /** Create adds one link per tag id to the new article `id`, which had none, and leaves
      the links of every other article as they were. */
  lemma AddedLinksOf(links: seq<NewsTag>, id: int, tagIds: seq<int>, other: int)
    requires LinksOf(links, id) == []
    ensures LinksOf(links + LinksFor(id, tagIds), id) == LinksFor(id, tagIds)
    ensures other != id ==> LinksOf(links + LinksFor(id, tagIds), other) == LinksOf(links, other)
  {
    LinksOfAppend(links, LinksFor(id, tagIds), id);
    LinksOfAppend(links, LinksFor(id, tagIds), other);
    LinksOfLinksFor(id, tagIds, id);
    LinksOfLinksFor(id, tagIds, other);
    assert [] + LinksFor(id, tagIds) == LinksFor(id, tagIds);
    assert LinksOf(links, other) + [] == LinksOf(links, other);
  }

  /** An id the article table does not hold has no links in a well-formed database. */
  lemma FreshArticleHasNoLinks(t: Tables, id: int)
    requires WellFormed(t) && !HasArticle(t.newsArticles, id)
    ensures LinksOf(t.newsTags, id) == []
  {
    assert forall l :: l in t.newsTags ==> HasArticle(t.newsArticles, l.newsArticleId);
    NoLinksOf(t.newsTags, id);
  }

  lemma {:induction false} NoLinksOf(links: seq<NewsTag>, id: int)
    requires forall l :: l in links ==> l.newsArticleId != id
    ensures LinksOf(links, id) == []
  {
    if links != [] {
      assert links[0] in links;
      assert forall l :: l in links[1..] ==> l in links;
      NoLinksOf(links[1..], id);
    }
  }

  // ---------------------------------------------------------------------------
  // When the database accepts the new links

  /** Appending one link per tag id for an article that has no links keeps the
      composite key unique exactly when the tag ids are distinct. */
  lemma AppendLinksUnique(base: seq<NewsTag>, id: int, tagIds: seq<int>)
    requires UniqueLinks(base)
    requires forall l :: l in base ==> l.newsArticleId != id
    ensures UniqueLinks(base + LinksFor(id, tagIds)) <==> Distinct(tagIds)
  {
    var added := LinksFor(id, tagIds);
    var r := base + added;
    var n := |base|;
    if Distinct(tagIds) {
      forall i, j | 0 <= i < j < |r|
        ensures r[i] != r[j]
      {
        if j < n {
          assert r[i] == base[i] && r[j] == base[j];
        } else if i < n {
          assert r[i] == base[i] && base[i] in base;
          assert r[j] == added[j - n];
        } else {
          assert r[i] == added[i - n] && r[j] == added[j - n];
        }
      }
    }
    if UniqueLinks(r) {
      forall i, j | 0 <= i < j < |tagIds|
        ensures tagIds[i] != tagIds[j]
      {
        assert r[n + i] == added[i] && r[n + j] == added[j];
      }
    }
  }

  /** The appended links resolve exactly when every tag id names a stored tag. */
  lemma AppendLinksResolve(t: Tables, base: seq<NewsTag>, id: int, tagIds: seq<int>)
    requires forall l :: l in base ==> HasArticle(t.newsArticles, l.newsArticleId) && HasTag(t.tags, l.tagId)
    requires HasArticle(t.newsArticles, id)
    ensures LinksResolve(t.(newsTags := base + LinksFor(id, tagIds)))
            <==> forall x :: x in tagIds ==> HasTag(t.tags, x)
  {
    var added := LinksFor(id, tagIds);
    var r := base + added;
    if forall x :: x in tagIds ==> HasTag(t.tags, x) {
      forall l | l in r
        ensures HasArticle(t.newsArticles, l.newsArticleId) && HasTag(t.tags, l.tagId)
      {
        if l !in base {
          var k :| 0 <= k < |added| && added[k] == l;
          assert tagIds[k] in tagIds;
        }
      }
    }
    if LinksResolve(t.(newsTags := r)) {
      forall x | x in tagIds
        ensures HasTag(t.tags, x)
      {
        var k :| 0 <= k < |tagIds| && tagIds[k] == x;
        assert added[k] in r;
      }
    }
  }

  // ---------------------------------------------------------------------------
  // When the database accepts Create

  /** The first save of Create succeeds exactly when the category exists and the title
      fits its column. */
  lemma ArticleSaveAccepted(t: Tables, news: NewsArticle)
    requires WellFormed(t) && !HasArticle(t.newsArticles, news.newsArticleId)
    ensures WellFormed(WithArticle(t, news))
            <==> HasCategory(t.categories, news.categoryId) && |news.newsTitle| <= MaxNewsTitleLength
  {
    var t1 := WithArticle(t, news);
    var s := t1.newsArticles;
    assert news in s;
    forall i, j | 0 <= i < j < |s|
      ensures s[i].newsArticleId != s[j].newsArticleId
    {
      if j == |s| - 1 {
        assert s[i] in t.newsArticles;
      }
    }
    forall l | l in t1.newsTags
      ensures HasArticle(t1.newsArticles, l.newsArticleId)
    {
      var a :| a in t.newsArticles && a.newsArticleId == l.newsArticleId;
      assert a in s;
    }
  }

  /** Create, in full: the article is stored exactly when its category exists and its
      title fits; its links then are stored exactly when the tag ids are distinct and
      name stored tags, and they are then one per tag id. */
  lemma CreateAccepted(t: Tables, id: int, dto: NewsArticleDto, createdById: int, now: int)
    requires WellFormed(t) && !HasArticle(t.newsArticles, id)
    ensures var news := NewArticle(id, dto, createdById, now);
            var t1 := WithArticle(t, news);
            && (WellFormed(t1) <==> HasCategory(t.categories, dto.categoryId) && |dto.newsTitle| <= MaxNewsTitleLength)
            && (WellFormed(t1) ==>
                  (WellFormed(WithLinks(t1, id, dto.tagIds))
                   <==> Distinct(dto.tagIds) && forall x :: x in dto.tagIds ==> HasTag(t.tags, x)))
            && LinksOf(WithLinks(t1, id, dto.tagIds).newsTags, id) == LinksFor(id, dto.tagIds)
  {
    var news := NewArticle(id, dto, createdById, now);
    var t1 := WithArticle(t, news);
    ArticleSaveAccepted(t, news);
    FreshArticleHasNoLinks(t, id);
    AddedLinksOf(t.newsTags, id, dto.tagIds, id);
    if WellFormed(t1) {
      forall l | l in t1.newsTags
        ensures l.newsArticleId != id
      {
        assert l in LinksOf(t.newsTags, l.newsArticleId);
      }
      assert news in t1.newsArticles;
      AppendLinksUnique(t1.newsTags, id, dto.tagIds);
      AppendLinksResolve(t1, t1.newsTags, id, dto.tagIds);
      var t2 := WithLinks(t1, id, dto.tagIds);
      assert WellFormed(t2) <==> UniqueLinks(t2.newsTags) && LinksResolve(t2);
    }
  }

  // ---------------------------------------------------------------------------
  // When the database accepts Update

  lemma UpdateRowsIds(s: seq<NewsArticle>, id: int, dto: NewsArticleDto, updatedById: int, now: int)
    ensures forall x :: HasArticle(UpdateRows(s, id, dto, updatedById, now), x) <==> HasArticle(s, x)
    ensures UniqueArticleIds(s) ==> UniqueArticleIds(UpdateRows(s, id, dto, updatedById, now))
  {
    var r := UpdateRows(s, id, dto, updatedById, now);
    assert forall k :: 0 <= k < |s| ==> r[k].newsArticleId == s[k].newsArticleId;
    forall x
      ensures HasArticle(r, x) <==> HasArticle(s, x)
    {
      if HasArticle(r, x) {
        var a :| a in r && a.newsArticleId == x;
        var k :| 0 <= k < |r| && r[k] == a;
        assert s[k] in s && s[k].newsArticleId == x;
      }
      if HasArticle(s, x) {
        var a :| a in s && a.newsArticleId == x;
        var k :| 0 <= k < |s| && s[k] == a;
        assert r[k] in r && r[k].newsArticleId == x;
      }
    }
  }

  /** The rewritten row keeps every schema rule on articles exactly when its new
      category exists and its new title fits. */
  lemma UpdateRowsRules(t: Tables, id: int, dto: NewsArticleDto, updatedById: int, now: int)
    requires CategoriesResolve(t) && forall a :: a in t.newsArticles ==> |a.newsTitle| <= MaxNewsTitleLength
    requires HasArticle(t.newsArticles, id)
    ensures var r := UpdateRows(t.newsArticles, id, dto, updatedById, now);
            && (CategoriesResolve(t.(newsArticles := r)) <==> HasCategory(t.categories, dto.categoryId))
            && ((forall a :: a in r ==> |a.newsTitle| <= MaxNewsTitleLength) <==> |dto.newsTitle| <= MaxNewsTitleLength)
  {
    var s := t.newsArticles;
    var r := UpdateRows(s, id, dto, updatedById, now);
    var b :| b in s && b.newsArticleId == id;
    var kb :| 0 <= kb < |s| && s[kb] == b;
    assert r[kb] in r && r[kb].categoryId == dto.categoryId && r[kb].newsTitle == dto.newsTitle;
    UpdateRowsKept(t, id, dto, updatedById, now);
  }

  /** Every row after Update has the new category and title or was a row before. */
  lemma UpdateRowsKept(t: Tables, id: int, dto: NewsArticleDto, updatedById: int, now: int)
    requires CategoriesResolve(t) && forall a :: a in t.newsArticles ==> |a.newsTitle| <= MaxNewsTitleLength
    ensures forall a :: a in UpdateRows(t.newsArticles, id, dto, updatedById, now) ==>
              && (a.categoryId == dto.categoryId || HasCategory(t.categories, a.categoryId))
              && (a.newsTitle == dto.newsTitle || |a.newsTitle| <= MaxNewsTitleLength)
  {
    var s := t.newsArticles;
    var r := UpdateRows(s, id, dto, updatedById, now);
    forall a | a in r
      ensures a.categoryId == dto.categoryId || HasCategory(t.categories, a.categoryId)
      ensures a.newsTitle == dto.newsTitle || |a.newsTitle| <= MaxNewsTitleLength
    {
      var k :| 0 <= k < |r| && r[k] == a;
      assert s[k] in s;
    }
  }

  /** Update, in full, for an article that exists: the save succeeds exactly when the
      new category exists, the new title fits, and the tag ids are distinct and name
      stored tags. */
  lemma UpdateAccepted(t: Tables, id: int, dto: NewsArticleDto, updatedById: int, now: int)
    requires WellFormed(t) && HasArticle(t.newsArticles, id)
    ensures WellFormed(UpdateTables(t, id, dto, updatedById, now))
            <==> && HasCategory(t.categories, dto.categoryId)
                 && |dto.newsTitle| <= MaxNewsTitleLength
                 && Distinct(dto.tagIds)
                 && forall x :: x in dto.tagIds ==> HasTag(t.tags, x)
  {
    var rows := UpdateRows(t.newsArticles, id, dto, updatedById, now);
    var u := UpdateTables(t, id, dto, updatedById, now);
    UpdateLinkRules(t, id, dto, updatedById, now);
    UpdateRowsRules(t, id, dto, updatedById, now);
    assert CategoriesResolve(u) <==> CategoriesResolve(t.(newsArticles := rows));
    TitlesDecideLengths(t, u);
  }

  /** Tables that differ from well-sized ones only in their articles and links fit
      exactly when every article title fits. */
  lemma TitlesDecideLengths(t: Tables, u: Tables)
    requires LengthsFit(t)
    requires u.systemAccounts == t.systemAccounts && u.tags == t.tags && u.categories == t.categories
    ensures LengthsFit(u) <==> forall a :: a in u.newsArticles ==> |a.newsTitle| <= MaxNewsTitleLength
  {
  }

  /** The link rules after Update: ids stay unique, and the new links are unique and
      resolve exactly when the tag ids are distinct and name stored tags. */
  lemma UpdateLinkRules(t: Tables, id: int, dto: NewsArticleDto, updatedById: int, now: int)
    requires WellFormed(t) && HasArticle(t.newsArticles, id)
    ensures var u := UpdateTables(t, id, dto, updatedById, now);
            && UniqueArticleIds(u.newsArticles)
            && (UniqueLinks(u.newsTags) <==> Distinct(dto.tagIds))
            && (LinksResolve(u) <==> forall x :: x in dto.tagIds ==> HasTag(t.tags, x))
  {
    var rows := UpdateRows(t.newsArticles, id, dto, updatedById, now);
    var base := LinksNotOf(t.newsTags, id);
    var u := UpdateTables(t, id, dto, updatedById, now);
    var ta := t.(newsArticles := rows);
    assert u == ta.(newsTags := base + LinksFor(id, dto.tagIds));
    assert UniqueArticleIds(u.newsArticles) by {
      UpdateRowsIds(t.newsArticles, id, dto, updatedById, now);
    }
    assert UniqueLinks(u.newsTags) <==> Distinct(dto.tagIds) by {
      SubsequenceUniqueLinks(t.newsTags, id);
      AppendLinksUnique(base, id, dto.tagIds);
    }
    assert LinksResolve(u) <==> forall x :: x in dto.tagIds ==> HasTag(t.tags, x) by {
      UpdateRowsIds(t.newsArticles, id, dto, updatedById, now);
      KeptLinksResolve(t, rows, id);
      AppendLinksResolve(ta, base, id, dto.tagIds);
    }
  }

  lemma KeptLinksResolve(t: Tables, rows: seq<NewsArticle>, id: int)
    requires LinksResolve(t)
    requires forall x :: HasArticle(rows, x) <==> HasArticle(t.newsArticles, x)
    ensures forall l :: l in LinksNotOf(t.newsTags, id) ==> HasArticle(rows, l.newsArticleId) && HasTag(t.tags, l.tagId)
  {
  }

  /** The row of article `id` after Update: the new title, headline, content, source and
      category, modified at `now` by `updatedById`; its id, status, creation date and
      creator kept. Every other row is unchanged. */
  lemma UpdatedRowOf(s: seq<NewsArticle>, id: int, dto: NewsArticleDto, updatedById: int, now: int)
    requires UniqueArticleIds(s) && HasArticle(s, id)
    ensures var before := FindArticle(s, id).value;
            var after := FindArticle(UpdateRows(s, id, dto, updatedById, now), id);
            && after.Some?
            && after.value.newsArticleId == id
            && after.value.newsTitle == dto.newsTitle && after.value.headline == dto.headline
            && after.value.newsContent == dto.newsContent && after.value.newsSource == dto.newsSource
            && after.value.categoryId == dto.categoryId
            && after.value.modifiedDate == now && after.value.updatedById == updatedById
            && after.value.newsStatus == before.newsStatus
            && after.value.createdDate == before.createdDate
            && after.value.createdById == before.createdById
    ensures forall a :: a in s && a.newsArticleId != id ==> a in UpdateRows(s, id, dto, updatedById, now)
  {
    var r := UpdateRows(s, id, dto, updatedById, now);
    var before := FindArticle(s, id).value;
    UpdateRowsIds(s, id, dto, updatedById, now);
    var after := FindArticle(r, id).value;
    var kb :| 0 <= kb < |s| && s[kb] == before;
    var ka :| 0 <= ka < |r| && r[ka] == after;
    assert s[ka].newsArticleId == id;
    assert ka == kb;
    forall a | a in s && a.newsArticleId != id
      ensures a in r
    {
      var k :| 0 <= k < |s| && s[k] == a;
      assert r[k] == a;
    }
  }

  // ---------------------------------------------------------------------------
  // Delete

  /** Delete leaves no row and no link of article `id`, and keeps every other article,
      every other link and the three other tables. */
  lemma DeleteRemovesOnly(t: Tables, id: int)
    ensures var d := DeleteTables(t, id);
            && !HasArticle(d.newsArticles, id)
            && LinksOf(d.newsTags, id) == []
            && (forall a :: a in t.newsArticles && a.newsArticleId != id ==> a in d.newsArticles)
            && (forall l :: l in t.newsTags && l.newsArticleId != id ==> l in d.newsTags)
            && d.systemAccounts == t.systemAccounts && d.tags == t.tags && d.categories == t.categories
  {
    LinksOfLinksNotOf(t.newsTags, id, id);
  }
}
