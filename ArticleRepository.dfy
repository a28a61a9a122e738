/**
 * Queries over the article table. The table is a sequence of `Article` objects in row order;
 * a lookup by field is the first row that carries the value, a filter keeps row order, and
 * the search query filters by substring, orders by id descending and keeps a prefix.
 */
module ArticleRepository {
  import opened Common
  import opened Sequences
  import opened Entities

  /** The page size `findBySearchQuery` uses when the caller gives none. */
  const DefaultSearchLimit: nat := 10

  /** `findOneBy(['slug' => slug])`: the first article whose slug is exactly `slug`. */
  function FindOneBySlug(articles: seq<Article>, slug: string): (r: Option<Article>)
    reads articles`slug
    ensures r.None? <==> forall a :: a in articles ==> a.slug != Some(slug)
    ensures r.Some? ==> r.value in articles && r.value.slug == Some(slug)
  {
    if articles == [] then None
    else if articles[0].slug == Some(slug) then Some(articles[0])
    else FindOneBySlug(articles[1..], slug)
  }

  /** Slugs are unique, as the table's constraint promises. */
  ghost predicate UniqueSlugs(articles: seq<Article>)
    reads articles`slug
  {
    forall i, j :: 0 <= i < j < |articles| && articles[i].slug.Some? ==> articles[i].slug != articles[j].slug
  }

  /** With unique slugs the lookup by slug finds every article that carries it. */
  lemma FindOneBySlugUnique(articles: seq<Article>, a: Article)
    requires UniqueSlugs(articles) && a in articles && a.slug.Some?
    ensures FindOneBySlug(articles, a.slug.value) == Some(a)
  {
  }

  /** `findBy(['category' => category])`: the articles filed under `category`, in row order. */
  function FindByCategory(articles: seq<Article>, category: Category): (r: seq<Article>)
    reads articles`category
    ensures forall a :: a in r ==> a in articles && a.category == category
    ensures forall a :: a in articles && a.category == category ==> a in r
    ensures |r| <= |articles|
  {
    if articles == [] then []
    else
      var rest := FindByCategory(articles[1..], category);
      assert forall a :: a in articles ==> a == articles[0] || a in articles[1..];
      if articles[0].category == category then [articles[0]] + rest else rest
  }

  /** Ids never increase along `s`. */
  predicate IdsDescending(s: seq<Article>) {
    forall i, j :: 0 <= i < j < |s| ==> s[i].id >= s[j].id
  }

  /** Ids strictly decrease along `s`. */
  predicate IdsStrictlyDescending(s: seq<Article>) {
    forall i, j :: 0 <= i < j < |s| ==> s[i].id > s[j].id
  }

  /** No two positions of `s` carry the same id (the primary key). */
  predicate DistinctIds(s: seq<Article>) {
    forall i, j :: 0 <= i < j < |s| ==> s[i].id != s[j].id
  }

  /** Places `a` in front of the first article whose id is not larger than its own. */
  function InsertByIdDesc(a: Article, s: seq<Article>): (r: seq<Article>)
    requires IdsDescending(s)
    ensures IdsDescending(r)
    ensures multiset(r) == multiset(s) + multiset{a}
    ensures |r| == |s| + 1
  {
    if s == [] then [a]
    else if a.id >= s[0].id then [a] + s
    else
      var rest := InsertByIdDesc(a, s[1..]);
      assert s == [s[0]] + s[1..];
      HeadBoundsInsertion(a, s, rest);
      [s[0]] + rest
  }

  /**
   * The head of `s` bounds every id of `s[1..]` with `a` inserted, when `a.id` is smaller, so
   * putting it in front of that insertion keeps the ids descending.
   */
  lemma HeadBoundsInsertion(a: Article, s: seq<Article>, rest: seq<Article>)
    requires s != [] && IdsDescending(s) && a.id < s[0].id
    requires IdsDescending(rest) && multiset(rest) == multiset(s[1..]) + multiset{a}
    ensures forall k :: 0 <= k < |rest| ==> s[0].id >= rest[k].id
    ensures IdsDescending([s[0]] + rest)
  {
    forall k | 0 <= k < |rest| ensures s[0].id >= rest[k].id {
      assert rest[k] in multiset(rest);
      if rest[k] != a {
        assert rest[k] in multiset(s[1..]);
        var j :| 0 <= j < |s[1..]| && s[1..][j] == rest[k];
        assert s[j + 1] == rest[k];
      }
    }
    var r := [s[0]] + rest;
    forall i, j | 0 <= i < j < |r| ensures r[i].id >= r[j].id {
      assert r[j] == rest[j - 1];
      if i > 0 {
        assert r[i] == rest[i - 1];
      }
    }
  }

  /** `orderBy('id', 'DESC')`: the same articles, ids descending. */
  function SortByIdDesc(s: seq<Article>): (r: seq<Article>)
    ensures IdsDescending(r)
    ensures multiset(r) == multiset(s)
    ensures |r| == |s|
  {
    if s == [] then []
    else
      assert s == [s[0]] + s[1..];
      InsertByIdDesc(s[0], SortByIdDesc(s[1..]))
  }

  /** Inserting an id absent from a strictly descending sequence keeps it strictly descending. */
  lemma {:induction false} InsertKeepsStrict(a: Article, s: seq<Article>)
    requires IdsStrictlyDescending(s)
    requires forall x :: x in s ==> x.id != a.id
    ensures IdsStrictlyDescending(InsertByIdDesc(a, s))
  {
    if s != [] && a.id < s[0].id {
      InsertKeepsStrict(a, s[1..]);
      var rest := InsertByIdDesc(a, s[1..]);
      forall k | 0 <= k < |rest| ensures s[0].id > rest[k].id {
        assert rest[k] in multiset(s[1..]) + multiset{a};
      }
    }
  }

  /** Sorting a sequence whose ids are distinct gives strictly descending ids. */
  lemma {:induction false} SortStrictWhenDistinct(s: seq<Article>)
    ensures DistinctIds(s) ==> IdsStrictlyDescending(SortByIdDesc(s))
  {
    if s != [] && DistinctIds(s) {
      var tail := s[1..];
      assert DistinctIds(tail) by {
        forall i, j | 0 <= i < j < |tail| ensures tail[i].id != tail[j].id {
          assert tail[i] == s[i + 1] && tail[j] == s[j + 1];
        }
      }
      SortStrictWhenDistinct(tail);
      var sorted := SortByIdDesc(tail);
      forall x | x in sorted ensures x.id != s[0].id {
        assert x in multiset(tail);
        var k :| 0 <= k < |tail| && tail[k] == x;
        assert s[k + 1] == x;
      }
      InsertKeepsStrict(s[0], sorted);
    }
  }

  /** The query string holds none of the characters `LIKE` treats specially. */
  predicate NoWildcards(query: string) {
    '%' !in query && '_' !in query && '\\' !in query
  }

  /** `title LIKE %q% OR content LIKE %q%`; a null column matches nothing. */
  predicate Matches(a: Article, query: string)
    reads a`title, a`content
  {
    || (a.title.Some? && IsSubstring(query, a.title.value))
    || (a.content.Some? && IsSubstring(query, a.content.value))
  }

  /** The empty query matches exactly the articles with a non-null title or content. */
  lemma EmptyQueryMatches(a: Article)
    ensures Matches(a, "") <==> a.title.Some? || a.content.Some?
  {
    if a.title.Some? {
      EmptyIsSubstring(a.title.value);
    }
    if a.content.Some? {
      EmptyIsSubstring(a.content.value);
    }
  }

  /** The articles the search condition selects, in row order. */
  function Matching(articles: seq<Article>, query: string): (r: seq<Article>)
    reads articles`title, articles`content
    ensures forall a :: a in r ==> a in articles && Matches(a, query)
    ensures forall a :: a in articles && Matches(a, query) ==> a in r
    ensures |r| <= |articles|
  {
    if articles == [] then []
    else
      var rest := Matching(articles[1..], query);
      assert forall a :: a in articles ==> a == articles[0] || a in articles[1..];
      if Matches(articles[0], query) then [articles[0]] + rest else rest
  }

  /** Filtering keeps the ids distinct. */
  lemma {:induction false} MatchingKeepsDistinct(articles: seq<Article>, query: string)
    requires DistinctIds(articles)
    ensures DistinctIds(Matching(articles, query))
  {
    if articles != [] {
      var tail := articles[1..];
      assert DistinctIds(tail) by {
        forall i, j | 0 <= i < j < |tail| ensures tail[i].id != tail[j].id {
          assert tail[i] == articles[i + 1] && tail[j] == articles[j + 1];
        }
      }
      MatchingKeepsDistinct(tail, query);
      var rest := Matching(tail, query);
      if Matches(articles[0], query) {
        var r := [articles[0]] + rest;
        forall i, j | 0 <= i < j < |r| ensures r[i].id != r[j].id {
          if i == 0 {
            assert r[j] in tail;
            var k :| 0 <= k < |tail| && tail[k] == r[j];
            assert articles[k + 1] == r[j];
          } else {
            assert r[i] == rest[i - 1] && r[j] == rest[j - 1];
          }
        }
      }
    }
  }

  /**
   * `findBySearchQuery(query, limit)`: the matching articles, ids descending, at most `limit`
   * of them.
   */
  function FindBySearchQuery(articles: seq<Article>, query: string, limit: nat := DefaultSearchLimit): (r: seq<Article>)
    requires NoWildcards(query)
    reads articles`title, articles`content
    ensures |r| <= limit
    ensures |r| == if |Matching(articles, query)| <= limit then |Matching(articles, query)| else limit
    ensures forall a :: a in r ==> a in articles && Matches(a, query)
    ensures IdsDescending(r)
  {
    var sorted := SortByIdDesc(Matching(articles, query));
    var r := if |sorted| <= limit then sorted else sorted[..limit];
    assert forall a :: a in r ==> a in multiset(sorted);
    r
  }

  /** With distinct ids (a primary key) the result's ids strictly decrease. */
  lemma SearchStrictlyDescending(articles: seq<Article>, query: string, limit: nat)
    requires NoWildcards(query) && DistinctIds(articles)
    ensures IdsStrictlyDescending(FindBySearchQuery(articles, query, limit))
  {
    MatchingKeepsDistinct(articles, query);
    SortStrictWhenDistinct(Matching(articles, query));
  }

  /**
   * No matching article is left out in favour of one with a smaller id: the result is the
   * first `limit` matches in id-descending order, and all of them when there are fewer.
   */
  lemma SearchTakesTopMatches(articles: seq<Article>, query: string, limit: nat)
    requires NoWildcards(query)
    ensures forall a, b ::
              (a in articles && Matches(a, query) && a !in FindBySearchQuery(articles, query, limit)
               && b in FindBySearchQuery(articles, query, limit)) ==> a.id <= b.id
    ensures |Matching(articles, query)| <= limit ==>
              forall a :: a in articles && Matches(a, query) ==> a in FindBySearchQuery(articles, query, limit)
  {
    var sorted := SortByIdDesc(Matching(articles, query));
    var r := FindBySearchQuery(articles, query, limit);
    assert r == if |sorted| <= limit then sorted else sorted[..limit];
    forall a | a in articles && Matches(a, query) ensures a in sorted {
      assert a in multiset(Matching(articles, query));
    }
    forall a, b | a in articles && Matches(a, query) && a !in r && b in r ensures a.id <= b.id {
      var k :| 0 <= k < |sorted| && sorted[k] == a;
      var j :| 0 <= j < |r| && r[j] == b;
      assert sorted[j] == b;
      assert j < k;
    }
  }
}
