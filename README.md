# Blog content layer, modelled in Dafny

This project models the content-access layer of a small Symfony blog. It covers:

- the `ArticleService` lookups that build page bundles, and its one write path, `createComment`;
- the article repository's `findBySearchQuery`: a substring OR-filter on title and content,
  ordered by id descending, with a limit that defaults to 10;
- the `Comment` entity, including its once-only creation stamp.

It also covers the add/remove bookkeeping of `Article`, `Category` and `User`, and
`User.getRoles`. The sources of those three entities are not available. The model's
`Article`, `Category` and `User` classes reconstruct their behaviour from the entities' unit
tests, following the usual Symfony maker-bundle shape:

- an add method appends the item only if it is absent, then sets the item's back-reference;
- a remove method drops the item and clears its back-reference only when that reference
  still points at the owner.

Files:

- `Common.dfy`: the `Option` and `Result` datatypes.
- `Sequences.dfy`: duplicate-freedom, removal of the first occurrence, order-keeping
  deduplication, and substrings.
- `Entities.dfy`: the classes `Comment`, `Article`, `Category` and `User`.
  - Each class has its fields and a constructor.
  - `Comment` has its four setters.
  - `Article` has the setters for its category and author, which the add/remove methods use.
  - `Article`, `Category` and `User` have add/remove methods. Each collection has an
    invariant (`Valid`, `ArticlesValid`, `CommentsValid`): each item is held once and points
    back at its owner.
  - This file also holds PHP truthiness of a nullable string and the once-only stamp
    `StampOnce`.
- `ArticleRepository.dfy`: `findOneBy` by slug, `findBy` by category, and the search
  (filter, then sort by id descending, then take).
- `Persistence.dfy`: the `Database` class with the article, category and comment tables.
  These are sequences of entity objects in row order.
  - `Save` models `persist` followed by `flush`. The caller chooses the outcome, so the
    model covers every outcome.
  - `findOneBy` returns the first matching row.
  - `findBy` is a filter that keeps row order.
- `ArticleService.dfy`: the four bundle-building read operations as functions over a `Database`, and
  `CreateComment` as a method that mutates the comment, the article and the comment table.
- `Scenarios.dfy`: the fixture data (two categories and two articles) and the situations the
  unit tests set up, with their outcomes proved.

Exceptions become `Failure` values of an `Error` enumeration, with one constructor per
message.

The clock is a parameter `now`. The storage outcome is a parameter `outcome`:
- `Saved`: the transaction commits;
- `PersistFailed`: `persist` throws;
- `FlushFailed`: `persist` runs the pre-persist callback, then `flush` throws.

## Model

| member | source | states |
|---|---|---|
| `ArticleService.GetHomePageData` | src/Service/ArticleService.php:36-45 | Never fails. Returns every stored article once (the same multiset), ids descending, strictly descending when ids are distinct, plus every category. |
| `ArticleService.GetArticlesByCategory` | src/Service/ArticleService.php:50-65 | Fails with `CategoryNotFound` if and only if no category has exactly that name. On success it returns exactly the stored articles filed under the first category with that name (both directions), plus every category. |
| `ArticleService.GetArticleData` | src/Service/ArticleService.php:70-87 | Fails with `ArticleDoesNotExist` if and only if no article has exactly that slug. On success it returns: a stored article carrying the slug; the slug echoed; every category; exactly the stored comments whose article is that article (both directions). |
| `ArticleService.SearchArticles` | src/Service/ArticleService.php:92-102 | Never fails. Returns the repository search with the default limit, unchanged: at most 10 matching stored articles. Echoes the query and returns every category. |
| `ArticleService.CreateComment` | src/Service/ArticleService.php:109-132 | Fails with `ArticleNotFound` if and only if no article has the slug. Fails with `ArticleTitleMissing` if and only if the found title is falsy (null, `""`, `"0"`). On failure nothing changes. On success: the user is the comment's author; the comment is in the article's collection (appended if new) and points at the article; the result is the article when the save commits and null otherwise, with the links kept either way; the comment is stored only on a commit; other articles' comments are untouched; then `GetArticleData` for the slug lists the comment. |
| `ArticleService.AttachAndSave` | src/Service/ArticleService.php:121-131 | Once the article is known: the user becomes the author; the comment joins the article's collection once and points at it if it was new; the save reports success exactly on `Saved`; a commit stores the comment. Only this article's collection changes. |
| `Persistence.Database.Save` | src/Service/ArticleService.php:124-131 | Reports success exactly when the outcome is `Saved`. The creation stamp runs when `persist` is reached for a comment not yet stored. The comment is appended to the table only when it commits and is new. |
| `Persistence.FindCategoryByName` | src/Service/ArticleService.php:52-56 | Returns `None` if and only if no category has the name. Otherwise returns a stored category with that name. |
| `Persistence.FindCommentsByArticle` | src/Service/ArticleService.php:79 | Returns exactly the stored comments that point at the article (both directions). |
| `ArticleRepository.FindOneBySlug` | src/Service/ArticleService.php:72-76 | Returns `None` if and only if no article carries the slug. Otherwise returns a stored article carrying it. |
| `ArticleRepository.FindOneBySlugUnique` | src/Service/ArticleService.php:111 | When slugs are unique, the lookup by slug finds the very article that carries the slug. |
| `ArticleRepository.FindByCategory` | src/Service/ArticleService.php:58 | Returns exactly the stored articles filed under the category (both directions). |
| `ArticleRepository.SortByIdDesc` | src/Repository/ArticleRepository.php:28 | Returns a permutation of the input (same multiset) with ids descending. |
| `ArticleRepository.InsertByIdDesc` | src/Repository/ArticleRepository.php:28 | Inserting into an id-descending sequence keeps it descending and adds exactly one element. |
| `ArticleRepository.InsertKeepsStrict` | src/Repository/ArticleRepository.php:28 | Inserting an absent id into a strictly descending sequence keeps it strictly descending. |
| `ArticleRepository.SortStrictWhenDistinct` | src/Repository/ArticleRepository.php:28 | Sorting articles whose ids are distinct gives strictly descending ids. |
| `ArticleRepository.Matching` | src/Repository/ArticleRepository.php:25-27 | Returns exactly the stored articles whose title or content contains the query (both directions). |
| `ArticleRepository.MatchingKeepsDistinct` | src/Repository/ArticleRepository.php:25-27 | Filtering keeps ids distinct. |
| `ArticleRepository.EmptyQueryMatches` | src/Repository/ArticleRepository.php:25-27 | The empty query matches an article if and only if its title or its content is non-null. |
| `ArticleRepository.FindBySearchQuery` | src/Repository/ArticleRepository.php:22-32 | Every result is a stored article whose title or content contains the query. Ids are descending. The length is the smaller of the match count and `limit`, so at most `limit`, which defaults to 10. |
| `ArticleRepository.SearchStrictlyDescending` | src/Repository/ArticleRepository.php:28 | With distinct ids (the primary key), the search result's ids strictly decrease. |
| `ArticleRepository.SearchTakesTopMatches` | src/Repository/ArticleRepository.php:24-31 | No match is left out while a match with a smaller id is kept. When there are at most `limit` matches, every match is returned. |
| `Entities.Comment.constructor` | src/Entity/Comment.php:16-31 | A new comment has null content, createdAt, article and commentedBy. |
| `Entities.Comment.SetContent` | src/Entity/Comment.php:43-48 | The content reads back as written, and no other field changes. |
| `Entities.Comment.SetCreatedAt` | src/Entity/Comment.php:55-63 | Sets the stamp to `now` when it is null, and otherwise leaves it as it was. No other field changes. |
| `Entities.StampOnce` | src/Entity/Comment.php:59-62 | The stamp afterwards is always set. It is the old stamp when one existed, and `now` otherwise. |
| `Entities.StampOnceIdempotent` | src/Entity/Comment.php:59-62 | Stamping a second time has no effect. |
| `Entities.Comment.SetArticle` | src/Entity/Comment.php:70-75 | The article reads back as written (null included), and no other field changes. |
| `Entities.Comment.SetCommentedBy` | src/Entity/Comment.php:82-87 | The author reads back as written (null included), and no other field changes. |
| `Entities.Article.constructor` | tests/Entity/ArticleTest.php:20-24 | A new article has the given id, no comments, and null title, content, slug, image, category and author. |
| `Entities.Article.SetCategory` | tests/Entity/ArticleTest.php:66-74 | The category reads back as written (null included), and no other field changes. |
| `Entities.Article.SetCreatedBy` | tests/Entity/ArticleTest.php:76-84 | The author reads back as written (null included), and no other field changes. |
| `Entities.Category.constructor` | tests/Entity/CategoryTest.php:18-22 | A new category has no articles and a null name. |
| `Entities.User.constructor` | tests/Entity/UserTest.php:19-56 | A new user has no stored roles, no articles, no comments, and a null email, password and first name. |
| `Entities.Article.AddComment` | tests/Entity/ArticleTest.php:86-101 | The comment ends up in the collection. A new comment is appended and pointed at the article. A comment already present leaves both sides unchanged. The collection invariant is preserved. |
| `Entities.Article.RemoveComment` | tests/Entity/ArticleTest.php:103-124 | Removes the first occurrence of the comment. The comment's back-reference becomes null only when it pointed at this article. Under the invariant, the comment is gone afterwards and the invariant holds. |
| `Entities.Category.AddArticle` | tests/Entity/CategoryTest.php:34-46 | The same add contract for a category's articles and their category reference. |
| `Entities.Category.RemoveArticle` | tests/Entity/CategoryTest.php:48-72 | The same remove contract for a category's articles. |
| `Entities.User.AddArticle` | tests/Entity/UserTest.php:58-70 | The same add contract for a user's authored articles and their `createdBy`. |
| `Entities.User.RemoveArticle` | tests/Entity/UserTest.php:72-78 | The same remove contract for a user's authored articles. |
| `Entities.User.AddComment` | tests/Entity/UserTest.php:80-92 | The same add contract for a user's comments and their `commentedBy`. |
| `Entities.User.RemoveComment` | tests/Entity/UserTest.php:94-100 | The same remove contract for a user's comments. |
| `Entities.User.GetRoles` | tests/Entity/UserTest.php:30-39 | Contains `ROLE_USER` and every stored role, contains nothing else, and has no duplicates. |
| `Sequences.RemoveFirst` | tests/Entity/ArticleTest.php:119-123 | Removing drops exactly one occurrence (the multiset minus the item). Removing an absent item changes nothing. |
| `Sequences.RemoveFirstOfDistinct` | tests/Entity/ArticleTest.php:119-123 | On a duplicate-free collection the item is gone afterwards, and everything else is kept. |
| `Sequences.RemoveFirstOfAppended` | tests/Entity/ArticleTest.php:111-122 | Appending an absent item and then removing it restores the collection. |
| `Sequences.Dedup` | tests/Entity/UserTest.php:34-38 | Returns a duplicate-free sequence with exactly the input's members, and no longer than the input. |
| `Scenarios.AddThenRemoveComment` | tests/Entity/ArticleTest.php:103-124 | Adding a new comment and removing it restores the article's collection and leaves the comment detached. |
| `Scenarios.FreshAddThenRemove` | tests/Entity/ArticleTest.php:103-124 | On a new article, add then remove leaves an empty collection. |
| `Scenarios.AddThenRemoveArticle` | tests/Entity/CategoryTest.php:48-72 | Adding a new article to a category and removing it restores the collection and clears the article's category. |
| `Scenarios.AddThenRemoveUserComment` | tests/Entity/UserTest.php:80-100 | Adding a new comment to a user and removing it restores the collection and clears its author. |
| `Scenarios.Fixture` | src/DataFixtures/Test/TestFixtures.php:46-74 | Builds the two fixture categories and articles as stored rows. |
| `Scenarios.SearchFixture` | src/DataFixtures/Test/TestFixtures.php:56-74 | Searching the fixture for "searching" returns exactly one article, `another-test-article`. |
| `Scenarios.CategoryFixture` | src/DataFixtures/Test/TestFixtures.php:51-72 | Browsing "Another Category" succeeds with exactly the article list `[another-test-article]` and the category list `[Test Category, Another Category]`. An unknown category fails with `CategoryNotFound`. |
| `Scenarios.ArticleFixture` | src/DataFixtures/Test/TestFixtures.php:56-63 | The page for `test-article-1` has that article, the slug and no comments. An unknown slug fails with `ArticleDoesNotExist`. |
| `Scenarios.CommentOnTitledArticle` | tests/Service/ArticleServiceTest.php:141-164 | Commenting on a titled article returns the article, makes the user the author, and adds the comment to the article. |
| `Scenarios.CommentOnFalsyTitle` | src/Service/ArticleService.php:117-119 | An article titled `"0"` refuses the comment and leaves it untouched. |
| `Scenarios.CommentWhenFlushFails` | src/Service/ArticleService.php:124-131 | A failed flush returns null but keeps the comment linked to the article, and stores nothing. |
| `Scenarios.AdminRoles` | tests/Entity/UserTest.php:30-39 | A user whose stored roles are `['ROLE_ADMIN']` has exactly two roles: `ROLE_ADMIN` and `ROLE_USER`. |
| `Scenarios.StampTwice` | tests/Entity/CommentTest.php:29-36 | After two stamps, the comment keeps the first. |

### Where the tests and the code disagree

The home-page test, at tests/Service/ArticleServiceTest.php:84-86, mocks
`findBy([], null, 3)`, which would limit the page to three articles in default order. The
service, at src/Service/ArticleService.php:38, calls `findBy([], ['id' => 'DESC'])`, which
returns every article, newest id first. The model follows the code.

`createComment` sets the comment's author with `setCommentedBy`. It does not call
`user.addComment`, so the user's own comment collection is not updated. The model keeps that
asymmetry.

## Left out

- Doctrine's unit of work, identity map, cascades and transactions. Persist/flush is reduced
  to the three outcomes of `SaveOutcome`, chosen by the caller. The logger call on failure
  is dropped.
- The clock. `now` is a parameter, and a `DateTimeImmutable` is an integer `Instant`.
- SQL `LIKE` semantics. Matching is exact, case-sensitive substring containment over
  characters. Any collation or case folding of the database is not modelled.
- ArticleRepository.FindBySearchQuery (and ArticleService.SearchArticles, which calls it)
  requires that the query contains no `%`, `_` or `\`. In the source these characters pass through unescaped and act as wildcards, and that
  behaviour is not modelled.
- ArticleRepository.FindBySearchQuery takes `limit` as a natural number. PHP accepts any
  `int`, and the effect of a negative limit on `setMaxResults` is not modelled. The only
  caller, `searchArticles`, uses the default of 10.
- Database-generated ids. A comment's `id` and `getId` are not modelled. An article's id is
  fixed when the object is built.
- Getters. They return the field as stored, so the model reads fields directly.
- The Article, Category and User entity sources are not available. Their add/remove
  methods, `getRoles`, `Article.setCategory` and `Article.setCreatedBy` are reconstructed
  from their tests. Their other plain setters (title, content, slug, image, name, email,
  roles, password, first name) are direct field assignments in the model, with no member of
  their own.
- `getCategories` is a one-line call to `findAll`. The bundles returned by
  `GetHomePageData`, `GetArticlesByCategory`, `GetArticleData` and `SearchArticles` state its
  result directly: their category list is every stored category.
- ArticleService.CreateComment: the `ArticleNotFound`/`ArticleTitleMissing` results stand
  for thrown exceptions. The exact exception message strings are not modelled.
- Which exception `persist` or `flush` throws. Every failure leads to the same null return.
- The controllers, the test rendering helpers, the fixture loader's password hashing and
  persistence calls, and the front-end script. These are routing, templating, form handling,
  authentication and DOM code outside the content layer.
