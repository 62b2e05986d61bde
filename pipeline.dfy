/** The pipeline inside `main` (main.py lines 113-175): collect up to three
    articles from the search links, summarize each into a report segment, and
    later synthesize the final article from the report and a lead sentence. */
module Pipeline {
  import opened Common
  import opened TextOps
  import opened Delimited
  import opened Dedup
  import opened Retry
  import opened Articles
  import opened Report

  /** Line 122: collection stops after this many accepted articles. */
  const MaxArticles: nat := 3

  /** Lines 131-135 index a list of three spinner texts by `crawled_count - 1`. */
  const SpinnerCount: nat := 3

  /** Line 167: the lead sentence must be longer than this. */
  const MinLeadLength: nat := 10

  /** Every link comes with replies for all `MaxRetry` attempts. */
  predicate LinksReady(links: seq<seq<Response<Page>>>) {
    forall i :: 0 <= i < |links| ==> |links[i]| >= MaxRetry
  }

  /** One reply sequence for each of the (at most three) summary requests. */
  predicate ServiceReady(gens: seq<seq<Response<Text>>>) {
    |gens| >= MaxArticles && forall j :: 0 <= j < |gens| ==> |gens[j]| >= MaxRetry
  }

  /** `existing_articles`: the contents of the accepted articles. */
  function Contents(articles: seq<Article>): (cs: seq<Text>)
    ensures |cs| == |articles|
    ensures forall i :: 0 <= i < |articles| ==> cs[i] == articles[i].content
  {
    seq(|articles|, i requires 0 <= i < |articles| => articles[i].content)
  }

  /** The articles accepted from the first `n` links: link `n` is crawled
      with index `n` against the contents accepted so far, unless three
      articles are already accepted. */
  function Selected(links: seq<seq<Response<Page>>>, n: nat, sim: Similarity): (articles: seq<Article>)
    requires n <= |links| && LinksReady(links)
    ensures |articles| <= MaxArticles
    decreases n
  {
    if n == 0 then []
    else
      var prev := Selected(links, n - 1, sim);
      if |prev| >= MaxArticles then prev
      else match Crawl(links[n - 1], n, Contents(prev), sim)
        case None => prev
        case Some(a) => prev + [a]
  }

  /** What every accepted list of articles satisfies: each content is within
      the size cutoff and free of tab, CR and LF, and each is unlike every
      content accepted before it. */
  predicate Admitted(arts: seq<Article>, sim: Similarity) {
    (forall i :: 0 <= i < |arts| ==> |arts[i].content| <= MaxArticleSize)
    && (forall i, k :: 0 <= i < |arts| && 0 <= k < |arts[i].content| ==> !IsLineControl(arts[i].content[k]))
    && (forall i, j :: 0 <= i < j < |arts| ==> sim(arts[i].content, arts[j].content) <= Threshold)
  }

  lemma AdmittedSnoc(prev: seq<Article>, a: Article, sim: Similarity)
    requires Admitted(prev, sim)
    requires |a.content| <= MaxArticleSize
    requires forall k :: 0 <= k < |a.content| ==> !IsLineControl(a.content[k])
    requires Unlike(a.content, Contents(prev), sim)
    ensures Admitted(prev + [a], sim)
  {
    var arts := prev + [a];
    forall i, j | 0 <= i < j < |arts| ensures sim(arts[i].content, arts[j].content) <= Threshold {
      if j == |prev| {
        assert Contents(prev)[i] == arts[i].content;
      } else {
        assert arts[i] == prev[i] && arts[j] == prev[j];
      }
    }
    forall i | 0 <= i < |arts| ensures |arts[i].content| <= MaxArticleSize
      && forall k :: 0 <= k < |arts[i].content| ==> !IsLineControl(arts[i].content[k])
    {
      if i < |prev| {
        assert arts[i] == prev[i];
      }
    }
  }

  /** Every list of accepted articles is `Admitted`. */
  lemma {:induction false} SelectedArticles(links: seq<seq<Response<Page>>>, n: nat, sim: Similarity)
    requires n <= |links| && LinksReady(links)
    ensures Admitted(Selected(links, n, sim), sim)
    decreases n
  {
    if n > 0 {
      SelectedArticles(links, n - 1, sim);
      var prev := Selected(links, n - 1, sim);
      if |prev| < MaxArticles {
        var r := Crawl(links[n - 1], n, Contents(prev), sim);
        if r.Some? {
          assert Selected(links, n, sim) == prev + [r.value];
          CrawlSpec(links[n - 1], n, Contents(prev), sim);
          AdmittedSnoc(prev, r.value, sim);
        } else {
          assert Selected(links, n, sim) == prev;
        }
      }
    }
  }

  /** Crawling more links only appends accepted articles. */
  lemma {:induction false} SelectedPrefix(links: seq<seq<Response<Page>>>, m: nat, n: nat, sim: Similarity)
    requires m <= n <= |links| && LinksReady(links)
    ensures Selected(links, m, sim) <= Selected(links, n, sim)
    decreases n - m
  {
    if m < n {
      SelectedPrefix(links, m, n - 1, sim);
    }
  }

  /** Once three articles are accepted no further link changes the selection
      (the `break` of lines 122-123). */
  lemma {:induction false} SelectedSaturated(links: seq<seq<Response<Page>>>, m: nat, n: nat, sim: Similarity)
    requires m <= n <= |links| && LinksReady(links)
    requires |Selected(links, m, sim)| >= MaxArticles
    ensures Selected(links, n, sim) == Selected(links, m, sim)
    decreases n - m
  {
    if m < n {
      SelectedSaturated(links, m, n - 1, sim);
    }
  }

  /** Every summary request for the first `n` accepted articles succeeds. */
  predicate Summarized(gens: seq<seq<Response<Text>>>, n: nat)
    requires n <= |gens| && forall j :: 0 <= j < |gens| ==> |gens[j]| >= MaxRetry
  {
    forall j :: 0 <= j < n ==> Generated(gens[j]).Some?
  }

  /** The report segments of the first `n` accepted articles, in order. */
  function Summaries(gens: seq<seq<Response<Text>>>, n: nat): (segs: seq<Text>)
    requires n <= |gens| && forall j :: 0 <= j < |gens| ==> |gens[j]| >= MaxRetry
    ensures |segs| == n
  {
    seq(n, j requires 0 <= j < n => Generated(gens[j]).GetOr([]))
  }

  /** How a press of the fetch button ends. */
  datatype Collection =
    | EmptySearch         // no news link: lines 113-115 return
    | GenerationFailed    // a summary request returned None; line 140 raises
    | Collected(report: Text)

  function Collect(links: seq<seq<Response<Page>>>, gens: seq<seq<Response<Text>>>, sim: Similarity): Collection
    requires LinksReady(links) && ServiceReady(gens)
  {
    var n := |Selected(links, |links|, sim)|;
    if links == [] then EmptySearch
    else if !Summarized(gens, n) then GenerationFailed
    else Collected(Concatenated(Summaries(gens, n)))
  }

  /** A collected report holds at most three segments, one summary per
      accepted article in acceptance order, joined by the delimiter (with no
      delimiter before leading empty segments). */
  lemma CollectedReport(links: seq<seq<Response<Page>>>, gens: seq<seq<Response<Text>>>, sim: Similarity)
    requires LinksReady(links) && ServiceReady(gens)
    requires Collect(links, gens, sim).Collected?
    ensures var n := |Selected(links, |links|, sim)|;
            var segs := Summaries(gens, n);
            n <= MaxArticles
            && (forall j :: 0 <= j < n ==> Generated(gens[j]) == Some(segs[j]))
            && Collect(links, gens, sim).report == Join(DropLeadingEmpty(segs), Delimiter)
  {
    var n := |Selected(links, |links|, sim)|;
    ConcatenatedIsJoin(Summaries(gens, n));
  }

  lemma SelectedAccept(links: seq<seq<Response<Page>>>, n: nat, sim: Similarity, a: Article)
    requires n < |links| && LinksReady(links) && |Selected(links, n, sim)| < MaxArticles
    requires Crawl(links[n], n + 1, Contents(Selected(links, n, sim)), sim) == Some(a)
    ensures Selected(links, n + 1, sim) == Selected(links, n, sim) + [a]
    ensures Contents(Selected(links, n + 1, sim)) == Contents(Selected(links, n, sim)) + [a.content]
  {
  }

  lemma SelectedReject(links: seq<seq<Response<Page>>>, n: nat, sim: Similarity)
    requires n < |links| && LinksReady(links) && |Selected(links, n, sim)| < MaxArticles
    requires Crawl(links[n], n + 1, Contents(Selected(links, n, sim)), sim) == None
    ensures Selected(links, n + 1, sim) == Selected(links, n, sim)
  {
  }

  lemma SummariesNext(gens: seq<seq<Response<Text>>>, n: nat, t: Text)
    requires n < |gens| && forall j :: 0 <= j < |gens| ==> |gens[j]| >= MaxRetry
    requires Summarized(gens, n) && Generated(gens[n]) == Some(t)
    ensures Summarized(gens, n + 1)
    ensures Summaries(gens, n + 1) == Summaries(gens, n) + [t]
  {
  }

  lemma CollectFails(links: seq<seq<Response<Page>>>, gens: seq<seq<Response<Text>>>, sim: Similarity, m: nat, n: nat)
    requires m <= |links| && links != [] && LinksReady(links) && ServiceReady(gens)
    requires 0 < n <= |Selected(links, m, sim)| && Generated(gens[n - 1]).None?
    ensures Collect(links, gens, sim) == GenerationFailed
  {
    SelectedPrefix(links, m, |links|, sim);
  }

  lemma CollectDone(links: seq<seq<Response<Page>>>, gens: seq<seq<Response<Text>>>, sim: Similarity, n: nat)
    requires links != [] && LinksReady(links) && ServiceReady(gens)
    requires n == |Selected(links, |links|, sim)| && Summarized(gens, n)
    ensures Collect(links, gens, sim) == Collected(Concatenated(Summaries(gens, n)))
  {
  }

  /** The state of the collection loop before link number `index + 1`:
      `existing_articles` holds the contents accepted so far, every summary
      request so far succeeded, and `summarized_content` is their report. */
  predicate Progress(links: seq<seq<Response<Page>>>, gens: seq<seq<Response<Text>>>, sim: Similarity,
                     index: nat, crawledCount: nat, existing: seq<Text>, summarized: Text)
    requires index <= |links| && LinksReady(links) && ServiceReady(gens)
  {
    crawledCount == |existing| <= MaxArticles
    && existing == Contents(Selected(links, index, sim))
    && Summarized(gens, crawledCount)
    && summarized == Concatenated(Summaries(gens, crawledCount))
  }

  /** Lines 124-143: one pass of the collection loop, for link number
      `index + 1` while fewer than three articles are accepted. `failed`
      means its summary request returned `None`. */
  method CollectLink(links: seq<seq<Response<Page>>>, gens: seq<seq<Response<Text>>>, sim: Similarity,
                     index: nat, crawledCount: nat, existing: seq<Text>, summarized: Text)
    returns (failed: bool, crawledCount': nat, existing': seq<Text>, summarized': Text)
    requires index < |links| && LinksReady(links) && ServiceReady(gens)
    requires Progress(links, gens, sim, index, crawledCount, existing, summarized)
    requires crawledCount < MaxArticles
    ensures failed ==> 0 < crawledCount' <= |Selected(links, index + 1, sim)|
                       && Generated(gens[crawledCount' - 1]).None?
    ensures !failed ==> Progress(links, gens, sim, index + 1, crawledCount', existing', summarized')
  {
    failed, crawledCount', existing', summarized' := false, crawledCount, existing, summarized;
    var crawled := CrawlAndGetArticle(links[index], index + 1, existing, sim);
    if crawled.None? {
      SelectedReject(links, index, sim);
      return;
    }
    SelectedAccept(links, index, sim, crawled.value);
    existing' := existing + [crawled.value.content];
    crawledCount' := crawledCount + 1;
    var stage := crawledCount' - 1;
    assert 0 <= stage < SpinnerCount;
    if summarized' != "" {
      summarized' := summarized' + Delimiter;
    }
    var segment, attempts := FetchFromOpenAI(gens[crawledCount' - 1]);
    if segment.None? {
      failed := true;
      return;
    }
    SummariesNext(gens, crawledCount, segment.value);
    ConcatenatedSnoc(Summaries(gens, crawledCount), segment.value);
    summarized' := summarized' + segment.value;
  }

  /** Lines 117-143: the collection loop. */
  method CollectReport(links: seq<seq<Response<Page>>>, gens: seq<seq<Response<Text>>>, sim: Similarity)
    returns (outcome: Collection)
    requires LinksReady(links) && ServiceReady(gens)
    ensures outcome == Collect(links, gens, sim)
  {
    if |links| == 0 {
      return EmptySearch;
    }
    var summarized: Text := "";
    var crawledCount: nat := 0;
    var existing: seq<Text> := [];
    assert Progress(links, gens, sim, 0, crawledCount, existing, summarized);
    for index := 0 to |links|
      invariant Progress(links, gens, sim, index, crawledCount, existing, summarized)
    {
      if crawledCount >= MaxArticles {
        SelectedSaturated(links, index, |links|, sim);
        assert crawledCount == |Selected(links, |links|, sim)|;
        break;
      }
      var failed;
      failed, crawledCount, existing, summarized :=
        CollectLink(links, gens, sim, index, crawledCount, existing, summarized);
      if failed {
        CollectFails(links, gens, sim, index + 1, crawledCount);
        return GenerationFailed;
      }
    }
    CollectDone(links, gens, sim, crawledCount);
    return Collected(summarized);
  }

  /** The answer to a press of the generate button. */
  datatype Verdict =
    | NoReport        // lines 163-165
    | LeadTooShort    // lines 167-169
    | Proceed

  /** Lines 163-169: an empty report is refused first, then a lead sentence
      of at most ten characters. */
  function CheckSynthesis(report: Text, lead: Text): (v: Verdict)
    ensures v == NoReport <==> report == []
    ensures v == Proceed <==> report != [] && |lead| > MinLeadLength
  {
    if report == [] then NoReport
    else if |lead| <= MinLeadLength then LeadTooShort
    else Proceed
  }

  /** Ten characters are refused, eleven proceed. */
  lemma LeadBoundary(report: Text, lead: Text)
    requires report != []
    ensures |lead| == 10 ==> CheckSynthesis(report, lead) == LeadTooShort
    ensures |lead| == 11 ==> CheckSynthesis(report, lead) == Proceed
  {
  }

  /** Lines 149-151 and 162-175 of one page run: the stored report is
      deduplicated and stored back; a press of the generate button then
      either is refused or sends one request for the final article. */
  method GenerateArticle(stored: Text, lead: Text, rs: seq<Response<Text>>, sim: Similarity)
    returns (report: Text, verdict: Verdict, article: Option<Text>)
    requires |rs| >= MaxRetry
    ensures report == Rerun(stored, sim)
    ensures verdict == CheckSynthesis(report, lead)
    ensures article == if verdict == Proceed then Generated(rs) else None
  {
    var lines := Split(stored, Delimiter);
    var uniqueLines := RemoveDuplicates(lines, sim);
    report := Join(uniqueLines, Delimiter);
    if report == [] {
      return report, NoReport, None;
    }
    if |lead| <= MinLeadLength {
      return report, LeadTooShort, None;
    }
    var attempts;
    article, attempts := FetchFromOpenAI(rs);
    verdict := Proceed;
  }
}
