# News bot pipeline core, modelled in Dafny

This project models the core of `main.py`, a Streamlit news bot. The bot searches for news with three keywords. It fetches the linked news pages one after another, dropping pages that are too long or too similar to a page already taken, until three are accepted or the links run out. It asks a text-generation service to summarise each page into one report segment, then joins the segments with the delimiter `"\n------\n"`. On every page run it splits the stored report at that delimiter, removes near-duplicate segments and joins it again. When the user asks, it checks that a report exists and that the lead sentence is longer than ten characters, then requests the final article.

The model has one module per part of that core:

- `Common` (common.dfy): text, `Option`, and the similarity score. The score is the parameter `sim: (Text, Text) -> real`, and the duplicate test is `sim(a, b) > 0.3`. Nothing is assumed about `sim`, not even symmetry. The filter calls `similarity(new, kept)` (line 15) and the article check calls `similarity(existing, new)` (line 86), and the model keeps those argument orders.
- `TextOps` (text.dfy): Python's `str.strip()` with the exact `str.isspace()` character set, the tab/CR/LF substitution of line 79, and `str(index)` for the placeholder texts.
- `Delimited` (delimited.dfy): Python's `str.split(sep)`, which cuts at the leftmost occurrence, and `sep.join`.
- `Dedup` (dedup.dfy): `remove_duplicates_from_summaries`, as the loop that builds the result and as the function that specifies it.
- `Report` (report.dfy): how segments are appended to the report (lines 137-140) and the rerun step `join(filter(split(report)))` (lines 149-151).
- `Retry` (retry.dfy): the two bounded retry loops. Each HTTP reply is given as input, one per attempt, as a status code plus the part of the body the caller reads.
- `Articles` (article.dfy): `crawl_and_get_article`. A page is what the two CSS selectors find, with each element given as an `Option`.
- `Pipeline` (pipeline.dfy): the collection loop of `main` (lines 117-143) and the synthesis guard and request (lines 162-175).

Where the code departs from what the system is documented to do, the model follows the code:

- After ten 429 replies, the page fetch does not fail. It leaves the loop and parses the last (429) reply (lines 64-74), so a placeholder article such as `"Article 2 not found"` can be accepted. `Retry.FetchedPageSpec` states this.
- `fetch_from_openai` returns `None` both for an error status and after ten 429s. The two cases differ only in the message shown.
- When a summary request fails during collection, `summarized_content += None` raises. The run stops, and the stored report is not updated. This is `Pipeline.Collection.GenerationFailed`.
- The returned article is `{title, content}` with no length field.
- The delimiter is added only when the report so far is non-empty (line 137). So empty segments at the front add no delimiter, and the report is the join of the segments without their leading empty ones (`Report.ConcatenatedIsJoin`).
- `split(join(xs)) == xs` does not hold just because no piece contains the delimiter. The delimiter begins and ends with a line feed, so a piece ending in `"\n------"` is cut one line early (`Report.DelimiterFreeIsNotEnough`). The exact condition is `Delimited.Shaped`. Every split result has that shape, and deleting pieces keeps it. So the rerun step is idempotent for every stored report (`Report.RerunIdempotent`).

## Model

| member | source | states |
|---|---|---|
| `TextOps.Strip` | main.py:54 | `.strip()` never lengthens the text and its result neither starts nor ends with whitespace |
| `TextOps.LeadingWhitespace` | main.py:54 | the whitespace run at the start of a text: everything in it is whitespace and the character after it is not |
| `TextOps.StripIsInfix` | main.py:54 | the stripped text is the infix that starts right after the leading whitespace run, and everything after it is whitespace, so only whitespace is removed on either side |
| `TextOps.Normalize` | main.py:79 | each tab, CR and LF becomes exactly one space, every other character is kept in place, the length is unchanged and none of the three characters remains |
| `TextOps.NormalizeIdempotent` | main.py:79 | substituting a second time changes nothing |
| `TextOps.NormalizeKeepsPlainText` | main.py:79 | text without tab, CR or LF is unchanged |
| `TextOps.Decimal` | main.py:76-78 | the index in a placeholder is written as decimal digits with no leading zero |
| `TextOps.DecimalRoundTrip` | main.py:76-78 | the written index reads back as the same number |
| `Delimited.Split` | main.py:149 | `str.split`: cuts at the leftmost occurrence of the delimiter and splits the rest, always giving at least one piece; `JoinSplit`, `SplitShaped` and `SplitJoinExactly` state its properties |
| `Delimited.Join` | main.py:151 | `str.join`: the pieces with one delimiter between neighbours; `JoinSnoc` and `SplitJoin` state its properties |
| `Delimited.FirstMatch` | main.py:149 | the split looks for the leftmost occurrence of the delimiter at or after a position |
| `Delimited.JoinSplit` | main.py:149-151 | joining the split pieces gives back the original report |
| `Delimited.SplitShaped` | main.py:149 | split pieces never contain the delimiter, and no piece except the last ends so that it overlaps the following delimiter |
| `Delimited.SplitJoin` | main.py:149-151 | splitting a join gives back the pieces when they are `Shaped` |
| `Delimited.SplitJoinExactly` | main.py:149-151 | splitting a join gives back the pieces if and only if they are `Shaped` |
| `Delimited.CleanNoMatch` | main.py:149 | a piece that is clean before a delimiter does not contain it |
| `Delimited.JoinSnoc` | main.py:151 | joining with one more piece at the end adds one delimiter before it |
| `Dedup.Deduplicated` | main.py:12-17 | the filter never lengthens its input and keeps at least one item of a non-empty input |
| `Dedup.RemoveDuplicates` | main.py:12-17 | the loop returns exactly the specified greedy filter result |
| `Dedup.DeduplicatedIsSubsequence` | main.py:12-17 | the result is an order-preserving subsequence of the input |
| `Dedup.SubsequenceElements` | main.py:12-17 | every kept item is an input item |
| `Dedup.DeduplicatedPrefix` | main.py:14-16 | filtering a prefix of the input gives a prefix of the result, because kept items are never removed later |
| `Dedup.DeduplicatedKeepsFirst` | main.py:14-16 | the first item is always kept |
| `Dedup.DeduplicatedIsDistinctive` | main.py:15 | every kept item has similarity at most 0.3 to each item kept before it |
| `Dedup.DeduplicatedStep` | main.py:14-16 | at each input position, the item is appended to what was kept from the earlier items exactly when it is admissible; otherwise it scores above 0.3 against one of those kept items |
| `Dedup.DeduplicatedCovers` | main.py:14-16 | every input item is either kept, directly after the items kept before it, or scores above 0.3 against an item kept before it |
| `Dedup.DeduplicatedFixedPoint` | main.py:12-17 | the filter leaves a list unchanged if and only if no item is too similar to an earlier one |
| `Dedup.DeduplicatedIdempotent` | main.py:12-17 | filtering a second time changes nothing |
| `Report.Rerun` | main.py:149-151 | the stored report split at the delimiter, filtered by `Deduplicated` and joined again; `RerunPieces` and `RerunIdempotent` state its properties |
| `Report.Append` | main.py:137-140 | a segment is appended after the delimiter when the report so far is non-empty, and directly otherwise; `ConcatenatedIsJoin` states the result |
| `Report.Concatenated` | main.py:137-140 | the report built by appending the segments in order to an empty report; `ConcatenatedIsJoin` and `ConcatenatedNonEmptySegments` state what it is |
| `Report.SubsequenceShaped` | main.py:149-151 | deleting split pieces, as long as one remains, keeps them `Shaped` |
| `Report.RerunPieces` | main.py:149-151 | splitting the rerun report gives exactly the kept pieces |
| `Report.RerunIdempotent` | main.py:149-151 | running the split/filter/join step twice gives the same report as running it once |
| `Report.DelimiterFreeIsNotEnough` | main.py:149-151 | two pieces can both be free of the delimiter and still not survive a join and a split |
| `Report.DropLeadingEmpty` | main.py:137 | only empty segments are dropped, and only at the front; the rest starts with a non-empty segment |
| `Report.ConcatenatedIsJoin` | main.py:137-140 | the collected report is the delimiter join of the segments without their leading empty ones |
| `Report.ConcatenatedNonEmptySegments` | main.py:137-140 | with no empty segment, delimiters appear only between segments and never at either end |
| `Retry.RateLimited` | main.py:47-56 | counts the 429 replies before the first reply with another status, within the first n attempts |
| `Retry.Attempts` | main.py:47-73 | requests sent: one more than the leading 429s, at most `MAX_RETRY` = 10 |
| `Retry.Generated` | main.py:47-61 | the value `fetch_from_openai` returns for the replies of its attempts; `GeneratedSpec` states it |
| `Retry.GeneratedSpec` | main.py:47-61 | the generation call returns the stripped message exactly when a 200 comes before any other non-429 status within ten attempts; ten 429s return None |
| `Retry.FetchFromOpenAI` | main.py:47-61 | the loop returns the specified result after exactly `Attempts` requests |
| `Retry.FetchedPage` | main.py:64-74 | the reply whose page the page fetch goes on to parse, if any; `FetchedPageSpec` states it |
| `Retry.FetchedPageSpec` | main.py:64-73 | the page fetch fails only on a status other than 200 and 429; it goes on with the first 200 or, after ten 429s, with the last reply |
| `Retry.FetchPage` | main.py:64-73 | the loop yields the specified page after exactly `Attempts` requests |
| `Articles.Extract` | main.py:75-79 | the page's title or the title placeholder, and its article text or the article placeholder with tab, CR and LF turned into spaces |
| `Articles.Crawl` | main.py:63-89 | the value `crawl_and_get_article` returns; `CrawlSpec` states it |
| `Articles.CrawlSpec` | main.py:63-89 | an article is returned only for a fetched page whose flattened body has at most 2500 characters and is not too similar to any existing content; the article is then that page's title and flattened body |
| `Articles.AcceptArticle` | main.py:75-89 | the page's article is accepted if and only if the size and similarity checks pass, and it is the title with the flattened body |
| `Articles.CrawlAndGetArticle` | main.py:63-89 | the function returns the specified article for its replies, index and existing contents |
| `Articles.MissingArticleIsPlaceholder` | main.py:77-79 | a page without an article element gets the content `"Article {index} not found"` unchanged |
| `Articles.SizeCutoff` | main.py:81-82 | a body of 2500 characters passes the cutoff and one of 2501 does not |
| `Pipeline.Selected` | main.py:121-130 | at most three articles are accepted |
| `Pipeline.SelectedArticles` | main.py:121-130 | the accepted articles are `Admitted`: every one is within 2500 characters, contains no tab, CR or LF, and is not too similar to any article accepted before it |
| `Pipeline.SelectedPrefix` | main.py:121-130 | going through more links only appends accepted articles |
| `Pipeline.SelectedSaturated` | main.py:122-123 | once three articles are accepted, later links change nothing |
| `Pipeline.Collect` | main.py:113-143 | how a press of the fetch button ends: an empty search, a failed summary request, or the report of the summaries of the selected articles; `CollectedReport` states what that report is |
| `Pipeline.CollectedReport` | main.py:117-143 | a collected report has at most three segments, one per accepted article in acceptance order, and is their delimiter join without leading empty segments |
| `Pipeline.Progress` | main.py:117-143 | the loop invariant: `crawled_count` is the number of accepted contents, `existing_articles` holds them in acceptance order, every summary request so far succeeded and the report is built from those summaries |
| `Pipeline.CollectLink` | main.py:124-143 | one pass of the loop keeps `Progress`: the accepted contents, the summaries so far and the report built from them; when the summary request fails, the accepted article's request is the one that returned None |
| `Pipeline.CollectReport` | main.py:113-143 | the loop gives the specified outcome: empty search, a failed summary request, or the collected report |
| `Pipeline.CheckSynthesis` | main.py:162-169 | an empty report is refused first; otherwise a lead of at most ten characters is refused; synthesis proceeds exactly when the report is non-empty and the lead is longer than ten characters |
| `Pipeline.LeadBoundary` | main.py:167-169 | a lead of length 10 is refused and one of length 11 proceeds |
| `Pipeline.GenerateArticle` | main.py:149-175 | a page run stores the rerun report; the generate button is refused as `CheckSynthesis` says, or sends one request whose result is the final article |

## Left out

- Streamlit UI and session state: inputs, buttons, spinners, markdown, the report display and the download button with its UTF-8 encoding. `Pipeline.GenerateArticle` takes the stored report and the lead as parameters and returns the new report.
- The spinner texts: `Pipeline.CollectLink` only checks that the index `crawled_count - 1` lies in 0..2.
- Network I/O and `time.sleep`. Each request is replaced by the replies given for its attempts, and `WAIT_TIME` has no observable effect. `st.secrets`, JSON decoding of the completion and exceptions raised by `requests` are not modelled. Every request is given replies for all ten attempts, which is the requirement on the reply sequences.
- The search request and link scraping (lines 107-111): the candidate links are the input.
- BeautifulSoup parsing and `get_text(strip=True)`: a page is the text its two selectors find, or `None`.
- The body of `difflib.SequenceMatcher.ratio` and its floating-point arithmetic: the score is an uninterpreted real compared with the exact value 0.3.
- Prompt texts, the model name and the generation parameters: the article title only feeds the prompt, so a summary depends only on its request's replies.
- The commented-out `duplicates` function and the unused local `final_article_content`.
- The content of the error and retry messages.
