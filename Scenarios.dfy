/**
 * Concrete scenarios: the seed data of the test fixtures and the situations the entity and
 * service tests set up, with their outcomes stated and proved against the model.
 */
module Scenarios {
  import opened Common
  import opened Sequences
  import opened Entities
  import opened ArticleRepository
  import opened Persistence
  import opened ArticleService

  /** One seeded article: the setters the fixture loader calls, on a new object. */
  method MakeArticle(id: int, title: string, content: string, slug: string, image: string, category: Category)
    returns (a: Article)
    ensures fresh(a) && a.id == id && a.category == category
    ensures a.title == Some(title) && a.content == Some(content) && a.slug == Some(slug)
  {
    a := new Article(id);
    a.title := Some(title);
    a.content := Some(content);
    a.slug := Some(slug);
    a.image := Some(image);
    a.SetCategory(category);
  }

  /** One seeded category. */
  method MakeCategory(name: string) returns (c: Category)
    ensures fresh(c) && c.name == Some(name)
  {
    c := new Category();
    c.name := Some(name);
  }

  /** The two fixture articles and their two categories. */
  method Fixture() returns (db: Database, first: Article, second: Article, testCategory: Category, another: Category)
    ensures db.articles == [first, second] && db.categories == [testCategory, another] && db.comments == []
    ensures first != second && testCategory != another
    ensures first.id == 1 && second.id == 2
    ensures first.title == Some("Test Article 1") && first.content == Some("This is test content for article 1")
    ensures second.title == Some("Another Test Article")
    ensures second.content == Some("This article contains test content for searching")
    ensures first.slug == Some("test-article-1") && second.slug == Some("another-test-article")
    ensures testCategory.name == Some("Test Category") && another.name == Some("Another Category")
    ensures first.category == testCategory && second.category == another
  {
    testCategory := MakeCategory("Test Category");
    another := MakeCategory("Another Category");
    first := MakeArticle(1, "Test Article 1", "This is test content for article 1", "test-article-1",
                         "test-image-1.jpg", testCategory);
    second := MakeArticle(2, "Another Test Article", "This article contains test content for searching",
                          "another-test-article", "test-image-2.jpg", another);
    db := new Database([first, second], [testCategory, another], []);
  }

  /** Neither the title nor the content of the first fixture article holds "searching". */
  lemma FirstMissesSearching(a: Article)
    requires a.title == Some("Test Article 1") && a.content == Some("This is test content for article 1")
    ensures !Matches(a, "searching")
  {
    NotSubstringByChar("searching", a.title.value, 'g');
    NotSubstringByChar("searching", a.content.value, 'g');
  }

  /** The content of the second fixture article ends in "searching". */
  lemma SecondHitsSearching(a: Article)
    requires a.content == Some("This article contains test content for searching")
    ensures Matches(a, "searching")
  {
    assert "searching" <= a.content.value[39..];
  }

  /** Filtering two articles of which only the second matches keeps just the second. */
  lemma MatchingSecondOfTwo(a: Article, b: Article, query: string)
    requires !Matches(a, query) && Matches(b, query)
    ensures Matching([a, b], query) == [b]
  {
  }

  /** The search over the two fixture articles keeps just the second. */
  lemma SearchOfFixture(first: Article, second: Article)
    requires first.title == Some("Test Article 1") && first.content == Some("This is test content for article 1")
    requires second.content == Some("This article contains test content for searching")
    ensures FindBySearchQuery([first, second], "searching") == [second]
  {
    FirstMissesSearching(first);
    SecondHitsSearching(second);
    MatchingSecondOfTwo(first, second, "searching");
    var r := FindBySearchQuery([first, second], "searching");
    assert r[0] in [first, second];
  }

  /** Searching the fixture for "searching" finds only the second article. */
  method SearchFixture() returns (found: seq<Article>)
    ensures |found| == 1 && found[0].slug == Some("another-test-article")
  {
    var db, first, second, _, _ := Fixture();
    SearchOfFixture(first, second);
    var page := SearchArticles(db, "searching");
    found := page.articles;
  }

  /** Filtering the two fixture articles by the second category keeps just the second. */
  lemma CategoryOfFixture(first: Article, second: Article, category: Category)
    requires first.category != category && second.category == category
    ensures FindByCategory([first, second], category) == [second]
  {
    assert [first, second][1..] == [second];
    assert [second][1..] == [];
  }

  /** Browsing "Another Category" lists only the second article, and both categories. */
  method CategoryFixture()
    returns (page: Result<ArticleList, Error>, missing: Result<ArticleList, Error>,
             second: Article, testCategory: Category, another: Category)
    ensures page == Success(ArticleList([second], [testCategory, another]))
    ensures second.slug == Some("another-test-article") && another.name == Some("Another Category")
    ensures missing == Failure(CategoryNotFound)
  {
    var db, first;
    db, first, second, testCategory, another := Fixture();
    CategoryOfFixture(first, second, another);
    page := GetArticlesByCategory(db, "Another Category");
    missing := GetArticlesByCategory(db, "Lifestyle");
  }

  /** The article page for a fixture slug, and the failure for an unknown one. */
  method ArticleFixture() returns (page: Result<ArticlePage, Error>, missing: Result<ArticlePage, Error>)
    ensures page.Success? && page.value.slug == "test-article-1" && page.value.comments == []
    ensures page.value.article.title == Some("Test Article 1")
    ensures missing == Failure(ArticleDoesNotExist)
  {
    var db, first, _, _, _ := Fixture();
    page := GetArticleData(db, "test-article-1");
    missing := GetArticleData(db, "no-such-article");
  }

  /** A comment on a titled article is attached, authored, and returned with its article. */
  method CommentOnTitledArticle() returns (result: Result<Option<Article>, Error>, article: Article, user: User, comment: Comment)
    ensures result == Success(Some(article))
    ensures comment.commentedBy == user && comment.article == article && article.comments == [comment]
    ensures comment.createdAt == Some(1000)
  {
    article := new Article(7);
    article.title := Some("Test Article");
    article.slug := Some("test-article");
    user := new User();
    comment := new Comment();
    var db := new Database([article], [], []);
    result := CreateComment(db, "test-article", user, comment, 1000, Saved);
  }

  /** An article titled "0" is falsy in PHP, so the comment is refused and left untouched. */
  method CommentOnFalsyTitle() returns (result: Result<Option<Article>, Error>, comment: Comment)
    ensures result == Failure(ArticleTitleMissing)
    ensures comment.article == null && comment.commentedBy == null && comment.createdAt == None
  {
    var article := new Article(8);
    article.title := Some("0");
    article.slug := Some("zero");
    var user := new User();
    comment := new Comment();
    var db := new Database([article], [], []);
    result := CreateComment(db, "zero", user, comment, 1000, Saved);
  }

  /** A failed flush returns null but keeps the in-memory links and stores nothing. */
  method CommentWhenFlushFails() returns (result: Result<Option<Article>, Error>, article: Article, comment: Comment, stored: seq<Comment>)
    ensures result == Success(None)
    ensures comment.article == article && comment in article.comments && stored == []
  {
    article := new Article(9);
    article.title := Some("Test Article");
    article.slug := Some("test-article");
    var user := new User();
    comment := new Comment();
    var db := new Database([article], [], []);
    result := CreateComment(db, "test-article", user, comment, 1000, FlushFailed);
    stored := db.comments;
  }

  /** Adding a new comment to an article and removing it again restores the collection. */
  method AddThenRemoveComment(article: Article, c: Comment)
    requires c !in article.comments
    modifies article`comments, c`article
    ensures article.comments == old(article.comments) && c.article == null
  {
    article.AddComment(c);
    article.RemoveComment(c);
    RemoveFirstOfAppended(old(article.comments), c);
  }

  /** Adding a new article to a category and removing it again restores the collection. */
  method AddThenRemoveArticle(category: Category, a: Article)
    requires a !in category.articles
    modifies category`articles, a`category
    ensures category.articles == old(category.articles) && a.category == null
  {
    category.AddArticle(a);
    category.RemoveArticle(a);
    RemoveFirstOfAppended(old(category.articles), a);
  }

  /** The same round trip on a user's authored comments. */
  method AddThenRemoveUserComment(user: User, c: Comment)
    requires c !in user.comments
    modifies user`comments, c`commentedBy
    ensures user.comments == old(user.comments) && c.commentedBy == null
  {
    user.AddComment(c);
    user.RemoveComment(c);
    RemoveFirstOfAppended(old(user.comments), c);
  }

  /** On a fresh article, the round trip leaves an empty collection and a detached comment. */
  method FreshAddThenRemove() returns (article: Article, comment: Comment)
    ensures article.comments == [] && comment.article == null
  {
    article := new Article(3);
    comment := new Comment();
    AddThenRemoveComment(article, comment);
  }

  /** A user whose stored roles are `['ROLE_ADMIN']` has exactly two roles. */
  method AdminRoles() returns (roles: seq<string>)
    ensures |roles| == 2 && "ROLE_ADMIN" in roles && RoleUser in roles
  {
    var user := new User();
    user.roles := ["ROLE_ADMIN"];
    roles := user.GetRoles();
    assert user.roles + [RoleUser] == ["ROLE_ADMIN", "ROLE_USER"];
    assert ["ROLE_ADMIN", "ROLE_USER"][..1] == ["ROLE_ADMIN"];
  }

  /** A second creation stamp leaves the first one in place. */
  method StampTwice() returns (comment: Comment)
    ensures comment.createdAt == Some(10)
  {
    comment := new Comment();
    comment.SetCreatedAt(10);
    comment.SetCreatedAt(20);
  }
}
