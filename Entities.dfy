/**
 * The blog's entities: comments (the Comment record), and the articles, categories and
 * users whose collections keep the comment and article back-references in step.
 * Nullable PHP fields are `Option` values or nullable references (`Article?`, `User?`).
 */
module Entities {
  import opened Common
  import opened Sequences

  /** A point in time, as the clock would report it; the clock itself is left to the caller. */
  type Instant = int

  /** The role every user carries whatever roles are stored. */
  const RoleUser: string := "ROLE_USER"

  /** PHP truthiness of a nullable string: `null`, `""` and `"0"` are all false. */
  predicate Truthy(s: Option<string>) {
    s.Some? && s.value != "" && s.value != "0"
  }

  /** The timestamp after the once-only stamping of `setCreatedAt`. */
  function StampOnce(current: Option<Instant>, now: Instant): (r: Option<Instant>)
    ensures r.Some?
    ensures current.Some? ==> r == current
    ensures current.None? ==> r == Some(now)
  {
    if current.None? then Some(now) else current
  }

  /** Stamping twice keeps the first stamp: a second `setCreatedAt` has no effect. */
  lemma StampOnceIdempotent(current: Option<Instant>, first: Instant, second: Instant)
    ensures StampOnce(StampOnce(current, first), second) == StampOnce(current, first)
  {
  }

  class Comment {
    var content: Option<string>
    var createdAt: Option<Instant>
    var article: Article?
    var commentedBy: User?

    /** A new comment has every field null. */
    constructor ()
      ensures content == None && createdAt == None
      ensures article == null && commentedBy == null
    {
      content := None;
      createdAt := None;
      article := null;
      commentedBy := null;
    }

    method SetContent(text: string)
      modifies this`content
      ensures content == Some(text)
    {
      content := Some(text);
    }

    /** The pre-persist callback: stamps the creation time unless one is already set. */
    method SetCreatedAt(now: Instant)
      modifies this`createdAt
      ensures createdAt == StampOnce(old(createdAt), now)
    {
      if createdAt.None? {
        createdAt := Some(now);
      }
    }

    method SetArticle(a: Article?)
      modifies this`article
      ensures article == a
    {
      article := a;
    }

    method SetCommentedBy(u: User?)
      modifies this`commentedBy
      ensures commentedBy == u
    {
      commentedBy := u;
    }
  }

  class Article {
    /** The identity the database assigned to the row. */
    const id: int
    var title: Option<string>
    var content: Option<string>
    var slug: Option<string>
    var image: Option<string>
    var category: Category?
    var createdBy: User?
    var comments: seq<Comment>

    constructor (id: int)
      ensures this.id == id
      ensures title == None && content == None && slug == None && image == None
      ensures category == null && createdBy == null && comments == []
    {
      this.id := id;
      title, content, slug, image := None, None, None, None;
      category, createdBy := null, null;
      comments := [];
    }

    /** The comment collection holds each comment once, and each points back at this article. */
    ghost predicate Valid()
      reads this, comments
    {
      NoDuplicates(comments) && forall c :: c in comments ==> c.article == this
    }

    method SetCategory(c: Category?)
      modifies this`category
      ensures category == c
    {
      category := c;
    }

    method SetCreatedBy(u: User?)
      modifies this`createdBy
      ensures createdBy == u
    {
      createdBy := u;
    }

    /** Adds `c` unless it is already in the collection, and then points `c` at this article. */
    method AddComment(c: Comment)
      modifies this`comments, c`article
      ensures c in comments
      ensures comments == if c in old(comments) then old(comments) else old(comments) + [c]
      ensures c.article == if c in old(comments) then old(c.article) else this
      ensures old(Valid()) ==> Valid()
    {
      if c !in comments {
        comments := comments + [c];
        c.SetArticle(this);
      }
    }

    /** Removes `c`, clearing its back-reference only when it still points at this article. */
    method RemoveComment(c: Comment)
      modifies this`comments, c`article
      ensures comments == RemoveFirst(old(comments), c)
      ensures c.article == if c in old(comments) && old(c.article) == this then null else old(c.article)
      ensures old(Valid()) ==> Valid() && c !in comments
    {
      var removed := c in comments;
      ghost var before := comments;
      comments := RemoveFirst(comments, c);
      if removed && c.article == this {
        c.SetArticle(null);
      }
      if old(Valid()) {
        RemoveFirstOfDistinct(before, c);
        forall d | d in comments ensures d.article == this {
          assert d in before && d != c;
        }
      }
    }
  }

  class Category {
    var name: Option<string>
    var articles: seq<Article>

    constructor ()
      ensures name == None && articles == []
    {
      name := None;
      articles := [];
    }

    /** The article collection holds each article once, and each is filed under this category. */
    ghost predicate Valid()
      reads this, articles
    {
      NoDuplicates(articles) && forall a :: a in articles ==> a.category == this
    }

    /** Adds `a` unless it is already in the collection, and then files `a` under this category. */
    method AddArticle(a: Article)
      modifies this`articles, a`category
      ensures a in articles
      ensures articles == if a in old(articles) then old(articles) else old(articles) + [a]
      ensures a.category == if a in old(articles) then old(a.category) else this
      ensures old(Valid()) ==> Valid()
    {
      if a !in articles {
        articles := articles + [a];
        a.SetCategory(this);
      }
    }

    /** Removes `a`, clearing its category only when it is still this one. */
    method RemoveArticle(a: Article)
      modifies this`articles, a`category
      ensures articles == RemoveFirst(old(articles), a)
      ensures a.category == if a in old(articles) && old(a.category) == this then null else old(a.category)
      ensures old(Valid()) ==> Valid() && a !in articles
    {
      var removed := a in articles;
      ghost var before := articles;
      articles := RemoveFirst(articles, a);
      if removed && a.category == this {
        a.SetCategory(null);
      }
      if old(Valid()) {
        RemoveFirstOfDistinct(before, a);
        forall d | d in articles ensures d.category == this {
          assert d in before && d != a;
        }
      }
    }
  }

  class User {
    var email: Option<string>
    var roles: seq<string>
    var password: Option<string>
    var firstName: Option<string>
    var articles: seq<Article>
    var comments: seq<Comment>

    constructor ()
      ensures email == None && roles == [] && password == None && firstName == None
      ensures articles == [] && comments == []
    {
      email, password, firstName := None, None, None;
      roles := [];
      articles, comments := [], [];
    }

    /** The stored roles plus `ROLE_USER`, each role once, in first-occurrence order. */
    function GetRoles(): (r: seq<string>)
      reads this
      ensures RoleUser in r
      ensures forall role :: role in roles ==> role in r
      ensures forall role :: role in r ==> role in roles || role == RoleUser
      ensures NoDuplicates(r)
    {
      Dedup(roles + [RoleUser])
    }

    /** The authored articles are held once each, and each names this user as its author. */
    ghost predicate ArticlesValid()
      reads this`articles, articles
    {
      NoDuplicates(articles) && forall a :: a in articles ==> a.createdBy == this
    }

    /** The authored comments are held once each, and each names this user as its author. */
    ghost predicate CommentsValid()
      reads this`comments, comments
    {
      NoDuplicates(comments) && forall c :: c in comments ==> c.commentedBy == this
    }

    method AddArticle(a: Article)
      modifies this`articles, a`createdBy
      ensures a in articles
      ensures articles == if a in old(articles) then old(articles) else old(articles) + [a]
      ensures a.createdBy == if a in old(articles) then old(a.createdBy) else this
      ensures old(ArticlesValid()) ==> ArticlesValid()
    {
      if a !in articles {
        articles := articles + [a];
        a.SetCreatedBy(this);
      }
    }

    method RemoveArticle(a: Article)
      modifies this`articles, a`createdBy
      ensures articles == RemoveFirst(old(articles), a)
      ensures a.createdBy == if a in old(articles) && old(a.createdBy) == this then null else old(a.createdBy)
      ensures old(ArticlesValid()) ==> ArticlesValid() && a !in articles
    {
      var removed := a in articles;
      ghost var before := articles;
      articles := RemoveFirst(articles, a);
      if removed && a.createdBy == this {
        a.SetCreatedBy(null);
      }
      if old(ArticlesValid()) {
        RemoveFirstOfDistinct(before, a);
        forall d | d in articles ensures d.createdBy == this {
          assert d in before && d != a;
        }
      }
    }

    method AddComment(c: Comment)
      modifies this`comments, c`commentedBy
      ensures c in comments
      ensures comments == if c in old(comments) then old(comments) else old(comments) + [c]
      ensures c.commentedBy == if c in old(comments) then old(c.commentedBy) else this
      ensures old(CommentsValid()) ==> CommentsValid()
    {
      if c !in comments {
        comments := comments + [c];
        c.SetCommentedBy(this);
      }
    }

    method RemoveComment(c: Comment)
      modifies this`comments, c`commentedBy
      ensures comments == RemoveFirst(old(comments), c)
      ensures c.commentedBy == if c in old(comments) && old(c.commentedBy) == this then null else old(c.commentedBy)
      ensures old(CommentsValid()) ==> CommentsValid() && c !in comments
    {
      var removed := c in comments;
      ghost var before := comments;
      comments := RemoveFirst(comments, c);
      if removed && c.commentedBy == this {
        c.SetCommentedBy(null);
      }
      if old(CommentsValid()) {
        RemoveFirstOfDistinct(before, c);
        forall d | d in comments ensures d.commentedBy == this {
          assert d in before && d != c;
        }
      }
    }
  }
}
