/** The article form of the news management page: how it is filled when an article is
    created or edited, and how a tag check box changes the chosen tags. */
module NewsArticleForm {
  import opened Wrappers
  import opened Dal
  import Listing
  import NewsStore

  /** `NewsArticleFormData`; `None` is a property left `undefined`. */
  datatype FormData = FormData(
    newsArticleId: Option<int>,
    newsTitle: string,
    headline: string,
    newsContent: string,
    newsSource: string,
    newsStatus: int,
    categoryId: int,
    tagIds: Option<seq<int>>)

  /** An article as the page receives it: the row and, when the backend included
      them, its tag links. */
  datatype ArticleView = ArticleView(article: NewsArticle, newsTags: Option<seq<NewsTag>>)

  /** `s` keeps some of the elements of `t`, in the order they have in `t`. */
  predicate IsSubsequence(s: seq<int>, t: seq<int>)
    decreases |t|
  {
    if s == [] then true
    else if t == [] then false
    else if s[0] == t[0] then IsSubsequence(s[1..], t[1..])
    else IsSubsequence(s, t[1..])
  }

  function Unequal(tagId: int): int -> bool {
    (id: int) => id != tagId
  }

  /** The new tag list: a chosen id is removed, every copy of it; any other id is
      appended. */
  function Toggled(current: seq<int>, tagId: int): seq<int> {
    if tagId in current then Listing.Filter(current, Unequal(tagId)) else current + [tagId]
  }

  /** `handleTagToggle(tagId)`: the form with its tag list toggled, an undefined list
      counting as empty. */
  function HandleTagToggle(form: FormData, tagId: int): (r: FormData)
    ensures r.tagIds == Some(Toggled(form.tagIds.GetOr([]), tagId))
    ensures r == form.(tagIds := r.tagIds)
  {
    form.(tagIds := Some(Toggled(form.tagIds.GetOr([]), tagId)))
  }

  /** The first category's id, or 0 when there is no category (`categories[0]?.categoryId || 0`). */
  function FirstCategoryId(categories: seq<Category>): (id: int)
    ensures categories != [] ==> id == categories[0].categoryId
    ensures categories == [] ==> id == 0
  {
    if categories == [] then 0 else categories[0].categoryId
  }

  /** The form `handleCreate` opens: empty texts, status 1, the first category and no
      tags. */
  function CreateForm(categories: seq<Category>): (r: FormData)
    ensures r.newsArticleId.None?
    ensures r.newsTitle == "" && r.headline == "" && r.newsContent == "" && r.newsSource == ""
    ensures r.newsStatus == NewsStore.ActiveStatus
    ensures categories != [] ==> r.categoryId == categories[0].categoryId && r.categoryId in CategoryIds(categories)
    ensures categories == [] ==> r.categoryId == 0
    ensures r.tagIds == Some([])
  {
    FormData(None, "", "", "", "", 1, FirstCategoryId(categories), Some([]))
  }

  function CategoryIds(categories: seq<Category>): set<int> {
    set c | c in categories :: c.categoryId
  }

  /** The tag ids of a list of links, in order (`newsTags.map(nt => nt.tagId)`). */
  function TagIdsOf(links: seq<NewsTag>): (r: seq<int>)
    ensures |r| == |links|
    ensures forall k :: 0 <= k < |r| ==> r[k] == links[k].tagId
  {
    if links == [] then [] else [links[0].tagId] + TagIdsOf(links[1..])
  }

  /** The form `handleEdit(article)` opens: the article's own fields, and the tag ids of
      its links, or no tags when the links were not included. */
  function EditForm(view: ArticleView): (r: FormData)
    ensures var a := view.article;
            && r.newsArticleId == Some(a.newsArticleId)
            && r.newsTitle == a.newsTitle && r.headline == a.headline
            && r.newsContent == a.newsContent && r.newsSource == a.newsSource
            && r.newsStatus == a.newsStatus && r.categoryId == a.categoryId
    ensures view.newsTags.None? ==> r.tagIds == Some([])
    ensures view.newsTags.Some? ==> r.tagIds == Some(TagIdsOf(view.newsTags.value))
  {
    var a := view.article;
    FormData(Some(a.newsArticleId), a.newsTitle, a.headline, a.newsContent, a.newsSource,
             a.newsStatus, a.categoryId,
             Some(if view.newsTags.Some? then TagIdsOf(view.newsTags.value) else []))
  }

  // ---------------------------------------------------------------------------
  // Lemmas

  /** Dropping one id from a list keeps the other ids in their order. */
  lemma {:induction false} FilterIsSubsequence(s: seq<int>, tagId: int)
    ensures IsSubsequence(Listing.Filter(s, Unequal(tagId)), s)
  {
    if s != [] {
      FilterIsSubsequence(s[1..], tagId);
      var rest := Listing.Filter(s[1..], Unequal(tagId));
      if s[0] == tagId {
        SkipHead(rest, s);
      }
    }
  }

  /** A subsequence of the tail is a subsequence of the whole list. */
  lemma {:induction false} SkipHead(s: seq<int>, t: seq<int>)
    requires t != []
    requires IsSubsequence(s, t[1..])
    ensures IsSubsequence(s, t)
    decreases |s| + |t|
  {
    if s != [] && s[0] == t[0] {
      DropFirst(s, t[1..]);
    }
  }

  /** Leaving out the first kept element still gives a subsequence. */
  lemma {:induction false} DropFirst(s: seq<int>, t: seq<int>)
    requires s != []
    requires IsSubsequence(s, t)
    ensures IsSubsequence(s[1..], t)
    decreases |s| + |t|
  {
    if s[0] == t[0] {
      SkipHead(s[1..], t);
    } else {
      DropFirst(s, t[1..]);
      SkipHead(s[1..], t);
    }
  }

  /** Toggling an id that is on the list removes every copy of it and keeps the other
      ids, each as often as before and in their order. */
  lemma ToggleRemoves(current: seq<int>, tagId: int)
    requires tagId in current
    ensures var r := Toggled(current, tagId);
            && tagId !in r
            && (forall x :: x != tagId ==> multiset(r)[x] == multiset(current)[x])
            && IsSubsequence(r, current)
  {
    Listing.FilterCounts(current, Unequal(tagId));
    FilterIsSubsequence(current, tagId);
  }

  /** Toggling an id that is not on the list appends it after the existing ids. */
  lemma ToggleAppends(current: seq<int>, tagId: int)
    requires tagId !in current
    ensures var r := Toggled(current, tagId);
            && |r| == |current| + 1 && r[..|current|] == current && r[|current|] == tagId
  {
  }

  /** A toggle flips whether the id is chosen and leaves every other id as it was. */
  lemma ToggleFlips(current: seq<int>, tagId: int)
    ensures tagId in Toggled(current, tagId) <==> tagId !in current
    ensures forall x :: x != tagId ==> (x in Toggled(current, tagId) <==> x in current)
  {
    Listing.FilterCounts(current, Unequal(tagId));
  }

  /** Checking and then unchecking a box that was not checked restores the list. */
  lemma ToggleTwice(current: seq<int>, tagId: int)
    requires tagId !in current
    ensures Toggled(Toggled(current, tagId), tagId) == current
  {
    assert tagId in current + [tagId];
    Listing.FilterAppend(current, [tagId], Unequal(tagId));
    Listing.FilterAll(current, Unequal(tagId));
    assert Listing.Filter([tagId], Unequal(tagId)) == [];
  }

  /** A form whose tags were never set toggles as if its list were empty. */
  lemma ToggleUndefined(form: FormData, tagId: int)
    requires form.tagIds.None?
    ensures HandleTagToggle(form, tagId).tagIds == Some([tagId])
  {
    assert [] + [tagId] == [tagId];
  }

  /** The edit form of an article whose links were included, saved without touching the
      check boxes, asks for exactly the links the article has. */
  lemma {:induction false} EditedTagsKeepLinks(links: seq<NewsTag>, id: int)
    ensures NewsStore.LinksFor(id, TagIdsOf(NewsStore.LinksOf(links, id))) == NewsStore.LinksOf(links, id)
  {
    if links != [] {
      EditedTagsKeepLinks(links[1..], id);
    }
  }
}
