/** `crawl_and_get_article` (main.py lines 63-89): fetch a news page, take its
    title and body (or placeholders), flatten line breaks, and accept the body
    only if it is small enough and unlike every article already accepted. */
module Articles {
  import opened Common
  import opened TextOps
  import opened Retry

  const MaxArticleSize: nat := 2500

  /** What the two CSS selectors find in a page (HTML parsing is not modelled):
      the stripped text of the title element and of the article element. */
  datatype Page = Page(title: Option<Text>, article: Option<Text>)

  /** The dictionary the function returns. */
  datatype Article = Article(title: Text, content: Text)

  function TitlePlaceholder(index: nat): Text {
    "Title " + Decimal(index) + " not found"
  }

  function ArticlePlaceholder(index: nat): Text {
    "Article " + Decimal(index) + " not found"
  }

  /** Lines 75-79: the title and the flattened body of page number `index`. */
  function Extract(page: Page, index: nat): Article {
    Article(page.title.GetOr(TitlePlaceholder(index)),
            Normalize(page.article.GetOr(ArticlePlaceholder(index))))
  }

  /** Lines 85-87: `similarity(existing, content) <= 0.3` for every existing
      content (the earlier article is the first argument). */
  predicate Unlike(content: Text, existing: seq<Text>, sim: Similarity) {
    forall j :: 0 <= j < |existing| ==> sim(existing[j], content) <= Threshold
  }

  /** Lines 81-87: the size cutoff, then the duplicate check. */
  predicate Accepts(content: Text, existing: seq<Text>, sim: Similarity) {
    |content| <= MaxArticleSize && Unlike(content, existing, sim)
  }

  /** The value `crawl_and_get_article` returns for the replies `rs` of its
      page request. */
  function Crawl(rs: seq<Response<Page>>, index: nat, existing: seq<Text>, sim: Similarity): Option<Article>
    requires |rs| >= MaxRetry
  {
    match FetchedPage(rs)
    case None => None
    case Some(page) =>
      var a := Extract(page, index);
      if Accepts(a.content, existing, sim) then Some(a) else None
  }

  /** An article is returned only for a fetched page whose flattened body is
      within the size cutoff and unlike every existing content; it is then
      the page's title and flattened body. */
  lemma CrawlSpec(rs: seq<Response<Page>>, index: nat, existing: seq<Text>, sim: Similarity)
    requires |rs| >= MaxRetry
    ensures var r := Crawl(rs, index, existing, sim);
            (r.Some? <==> FetchedPage(rs).Some? && Accepts(Extract(FetchedPage(rs).value, index).content, existing, sim))
            && (r.Some? ==> r.value == Extract(FetchedPage(rs).value, index)
                            && |r.value.content| <= MaxArticleSize
                            && (forall i :: 0 <= i < |r.value.content| ==> !IsLineControl(r.value.content[i]))
                            && Unlike(r.value.content, existing, sim))
  {
  }

  /** Lines 75-89 on an already fetched page. */
  method AcceptArticle(page: Page, index: nat, existing: seq<Text>, sim: Similarity)
    returns (article: Option<Article>)
    ensures article.Some? <==> Accepts(Extract(page, index).content, existing, sim)
    ensures article.Some? ==> article.value == Extract(page, index)
  {
    var titleText := page.title.GetOr(TitlePlaceholder(index));
    var articleText := page.article.GetOr(ArticlePlaceholder(index));
    articleText := Normalize(articleText);
    if |articleText| > MaxArticleSize {
      return None;
    }
    for i := 0 to |existing|
      invariant Unlike(articleText, existing[..i], sim)
    {
      if sim(existing[i], articleText) > Threshold {
        return None;
      }
    }
    assert existing[..|existing|] == existing;
    return Some(Article(titleText, articleText));
  }

  /** The whole of `crawl_and_get_article`. */
  method CrawlAndGetArticle(rs: seq<Response<Page>>, index: nat, existing: seq<Text>, sim: Similarity)
    returns (article: Option<Article>)
    requires |rs| >= MaxRetry
    ensures article == Crawl(rs, index, existing, sim)
  {
    var page, _ := FetchPage(rs);
    if page.None? {
      return None;
    }
    article := AcceptArticle(page.value, index, existing, sim);
  }

  /** A page without an article element yields the placeholder text as its
      content, unchanged by the line-break substitution. */
  lemma MissingArticleIsPlaceholder(page: Page, index: nat)
    requires page.article.None?
    ensures Extract(page, index).content == ArticlePlaceholder(index)
  {
    var p := ArticlePlaceholder(index);
    var d := Decimal(index);
    assert p == "Article " + d + " not found";
    forall i | 0 <= i < |p| ensures !IsLineControl(p[i]) {
      if 8 <= i < 8 + |d| {
        assert p[i] == d[i - 8];
      }
    }
    NormalizeKeepsPlainText(p);
  }

  /** Lines 81-82 are a hard cutoff: 2500 characters pass, 2501 do not. */
  lemma SizeCutoff(content: Text, existing: seq<Text>, sim: Similarity)
    requires Unlike(content, existing, sim)
    ensures |content| == 2500 ==> Accepts(content, existing, sim)
    ensures |content| == 2501 ==> !Accepts(content, existing, sim)
  {
  }
}
