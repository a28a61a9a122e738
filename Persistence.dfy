/**
 * The storage the content service reads: the article, category and comment tables, each a
 * sequence of entity objects in row order, and the generic lookups of the category and
 * comment repositories.
 */
module Persistence {
  import opened Common
  import opened Entities

  class Database {
    var articles: seq<Article>
    var categories: seq<Category>
    var comments: seq<Comment>

    constructor (articles: seq<Article>, categories: seq<Category>, comments: seq<Comment>)
      ensures this.articles == articles && this.categories == categories && this.comments == comments
    {
      this.articles := articles;
      this.categories := categories;
      this.comments := comments;
    }

    /**
     * `persist` then `flush` of one comment. Persisting a comment not yet stored runs its
     * pre-persist callback (the creation stamp); only a committed flush stores the row.
     */
    method Save(c: Comment, now: Instant, outcome: SaveOutcome) returns (saved: bool)
      modifies this`comments, c`createdAt
      ensures saved <==> outcome == Saved
      ensures c.createdAt == if outcome != PersistFailed && c !in old(comments) then StampOnce(old(c.createdAt), now) else old(c.createdAt)
      ensures comments == if saved && c !in old(comments) then old(comments) + [c] else old(comments)
      ensures c in comments <==> saved || c in old(comments)
    {
      if outcome == PersistFailed {
        return false;
      }
      var isNew := c !in comments;
      if isNew {
        c.SetCreatedAt(now);
      }
      if outcome == FlushFailed {
        return false;
      }
      if isNew {
        comments := comments + [c];
      }
      return true;
    }
  }

  /** What the storage reports for one `persist` + `flush` attempt. */
  datatype SaveOutcome =
    | Saved          // both calls succeed and the transaction commits
    | PersistFailed  // `persist` throws; no lifecycle callback has run
    | FlushFailed    // `persist` succeeds (callbacks ran) and `flush` throws; nothing is committed

  /** `findOneBy(['name' => name])` on categories: the first category named exactly `name`. */
  function FindCategoryByName(categories: seq<Category>, name: string): (r: Option<Category>)
    reads categories`name
    ensures r.None? <==> forall c :: c in categories ==> c.name != Some(name)
    ensures r.Some? ==> r.value in categories && r.value.name == Some(name)
  {
    if categories == [] then None
    else if categories[0].name == Some(name) then Some(categories[0])
    else FindCategoryByName(categories[1..], name)
  }

  /** `findBy(['article' => article])` on comments: the comments that point at `article`. */
  function FindCommentsByArticle(comments: seq<Comment>, article: Article): (r: seq<Comment>)
    reads comments`article
    ensures forall c :: c in r ==> c in comments && c.article == article
    ensures forall c :: c in comments && c.article == article ==> c in r
    ensures |r| <= |comments|
  {
    if comments == [] then []
    else
      var rest := FindCommentsByArticle(comments[1..], article);
      assert forall c :: c in comments ==> c == comments[0] || c in comments[1..];
      if comments[0].article == article then [comments[0]] + rest else rest
  }
}
