/**
 * The content service: composes repository lookups into the key/value bundles the pages
 * render, and owns the one write path, attaching a comment to an article.
 */
module ArticleService {
  import opened Common
  import opened Entities
  import opened ArticleRepository
  import opened Persistence

  /** One constructor per exception the service throws. */
  datatype Error =
    | CategoryNotFound     // getArticlesByCategory: no category has the name
    | ArticleDoesNotExist  // getArticleData: no article has the slug
    | ArticleNotFound      // createComment: no article has the slug
    | ArticleTitleMissing  // createComment: the article's title is falsy

  /** The bundle `['articles' => ..., 'categories' => ...]`. */
  datatype ArticleList = ArticleList(articles: seq<Article>, categories: seq<Category>)

  /** The bundle `['article' => ..., 'categories' => ..., 'comments' => ..., 'slug' => ...]`. */
  datatype ArticlePage = ArticlePage(article: Article, categories: seq<Category>, comments: seq<Comment>, slug: string)

  /** The bundle `['articles' => ..., 'query' => ..., 'categories' => ...]`. */
  datatype SearchPage = SearchPage(articles: seq<Article>, query: string, categories: seq<Category>)

  /** `getHomePageData`: every article, newest id first, and every category. */
  function GetHomePageData(db: Database): (r: ArticleList)
    reads db`articles, db`categories
    ensures multiset(r.articles) == multiset(db.articles)
    ensures IdsDescending(r.articles)
    ensures DistinctIds(db.articles) ==> IdsStrictlyDescending(r.articles)
    ensures r.categories == db.categories
  {
    SortStrictWhenDistinct(db.articles);
    ArticleList(SortByIdDesc(db.articles), db.categories)
  }

  /**
   * `getArticlesByCategory`: fails exactly when no category has the name; otherwise the
   * articles filed under the first category with that name, and every category.
   */
  function GetArticlesByCategory(db: Database, categoryName: string): (r: Result<ArticleList, Error>)
    reads db`articles, db`categories, db.categories`name, db.articles`category
    ensures r.Failure? <==> forall c :: c in db.categories ==> c.name != Some(categoryName)
    ensures r.Failure? ==> r.error == CategoryNotFound
    ensures r.Success? ==>
              var found := FindCategoryByName(db.categories, categoryName);
              && found.Some? && found.value in db.categories && found.value.name == Some(categoryName)
              && (forall a :: a in r.value.articles ==> a in db.articles && a.category == found.value)
              && (forall a :: a in db.articles && a.category == found.value ==> a in r.value.articles)
              && r.value.categories == db.categories
  {
    match FindCategoryByName(db.categories, categoryName)
    case None => Failure(CategoryNotFound)
    case Some(category) => Success(ArticleList(FindByCategory(db.articles, category), db.categories))
  }

  /**
   * `getArticleData`: fails exactly when no article has the slug; otherwise that article,
   * every category, exactly the stored comments that point at the article, and the slug.
   */
  function GetArticleData(db: Database, slug: string): (r: Result<ArticlePage, Error>)
    reads db`articles, db`categories, db`comments, db.articles`slug, db.comments`article
    ensures r.Failure? <==> forall a :: a in db.articles ==> a.slug != Some(slug)
    ensures r.Failure? ==> r.error == ArticleDoesNotExist
    ensures r.Success? ==>
              && r.value.article in db.articles && r.value.article.slug == Some(slug)
              && r.value.slug == slug
              && r.value.categories == db.categories
              && (forall c :: c in r.value.comments ==> c in db.comments && c.article == r.value.article)
              && (forall c :: c in db.comments && c.article == r.value.article ==> c in r.value.comments)
  {
    match FindOneBySlug(db.articles, slug)
    case None => Failure(ArticleDoesNotExist)
    case Some(article) =>
      Success(ArticlePage(article, db.categories, FindCommentsByArticle(db.comments, article), slug))
  }

  /**
   * `searchArticles`: never fails; the repository's search with its default page size,
   * unchanged, the query echoed, and every category.
   */
  function SearchArticles(db: Database, query: string): (r: SearchPage)
    requires NoWildcards(query)
    reads db`articles, db`categories, db.articles`title, db.articles`content
    ensures r.articles == FindBySearchQuery(db.articles, query, DefaultSearchLimit)
    ensures |r.articles| <= DefaultSearchLimit
    ensures forall a :: a in r.articles ==> a in db.articles && Matches(a, query)
    ensures r.query == query && r.categories == db.categories
  {
    SearchPage(FindBySearchQuery(db.articles, query), query, db.categories)
  }

  /**
   * `createComment`: looks the article up by slug and throws when it is absent or its title
   * is falsy, in both cases before touching anything. Otherwise it makes `user` the author,
   * adds the comment to the article, and tries to save it: `Some(article)` when the save
   * goes through, `None` when it fails, with the in-memory links kept either way.
   */
  method CreateComment(db: Database, slug: string, user: User, comment: Comment, now: Instant, outcome: SaveOutcome)
    returns (r: Result<Option<Article>, Error>)
    modifies db`comments, comment`article, comment`commentedBy, comment`createdAt, db.articles`comments
    ensures db.articles == old(db.articles) && db.categories == old(db.categories)
    ensures var found := old(FindOneBySlug(db.articles, slug));
            && (r == Failure(ArticleNotFound) <==> found.None?)
            && (r == Failure(ArticleTitleMissing) <==> found.Some? && !Truthy(old(found.value.title)))
            && (r.Success? <==> found.Some? && Truthy(old(found.value.title)))
    ensures r.Failure? ==>
              && comment.article == old(comment.article) && comment.commentedBy == old(comment.commentedBy)
              && comment.createdAt == old(comment.createdAt) && db.comments == old(db.comments)
              && forall a :: a in old(db.articles) ==> a.comments == old(a.comments)
    ensures r.Success? ==>
              var article := old(FindOneBySlug(db.articles, slug)).value;
              && r.value == (if outcome == Saved then Some(article) else None)
              && comment.commentedBy == user
              && comment in article.comments
              && article.comments == (if comment in old(article.comments) then old(article.comments) else old(article.comments) + [comment])
              && comment.article == (if comment in old(article.comments) then old(comment.article) else article)
              && comment.createdAt == (if outcome != PersistFailed && comment !in old(db.comments) then StampOnce(old(comment.createdAt), now) else old(comment.createdAt))
              && db.comments == (if outcome == Saved && comment !in old(db.comments) then old(db.comments) + [comment] else old(db.comments))
              && forall a :: a in old(db.articles) && a != article ==> a.comments == old(a.comments)
    ensures r.Success? && r.value.Some? && comment.article == r.value.value ==>
              GetArticleData(db, slug).Success? && comment in GetArticleData(db, slug).value.comments
  {
    var found := FindOneBySlug(db.articles, slug);
    if found.None? {
      return Failure(ArticleNotFound);
    }
    var article := found.value;
    if !Truthy(article.title) {
      return Failure(ArticleTitleMissing);
    }
    var saved := AttachAndSave(db, article, user, comment, now, outcome);
    r := if saved then Success(Some(article)) else Success(None);
  }

  /**
   * The mutating half of `createComment`, once the article is known: the comment gets its
   * author, joins the article's collection, and is handed to the storage.
   */
  method AttachAndSave(db: Database, article: Article, user: User, comment: Comment, now: Instant, outcome: SaveOutcome)
    returns (saved: bool)
    modifies db`comments, comment`article, comment`commentedBy, comment`createdAt, article`comments
    ensures saved <==> outcome == Saved
    ensures comment.commentedBy == user
    ensures comment in article.comments
    ensures article.comments == (if comment in old(article.comments) then old(article.comments) else old(article.comments) + [comment])
    ensures comment.article == (if comment in old(article.comments) then old(comment.article) else article)
    ensures comment.createdAt == (if outcome != PersistFailed && comment !in old(db.comments) then StampOnce(old(comment.createdAt), now) else old(comment.createdAt))
    ensures db.comments == (if saved && comment !in old(db.comments) then old(db.comments) + [comment] else old(db.comments))
    ensures saved ==> comment in db.comments
  {
    comment.SetCommentedBy(user);
    article.AddComment(comment);
    saved := db.Save(comment, now, outcome);
  }
}
