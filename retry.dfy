/** The two bounded retry loops of main.py: `fetch_from_openai` (lines 47-61)
    and the page fetch at the head of `crawl_and_get_article` (lines 64-73).
    The network is replaced by the replies it would give, one per attempt;
    the five-second sleep after a 429 has no observable effect here. */
module Retry {
  import opened Common
  import opened TextOps

  const MaxRetry: nat := 10
  const StatusOk: int := 200
  const StatusTooManyRequests: int := 429

  /** One HTTP reply: its status code and the part of its body the caller
      reads (the message text of a completion, or the parsed page). */
  datatype Response<B> = Response(status: int, body: B)

  /** How many of the first `n` replies are 429s before the first other
      status: the attempts that end in a sleep and a retry. */
  function RateLimited<B>(rs: seq<Response<B>>, n: nat): (k: nat)
    requires n <= |rs|
    ensures k <= n
    ensures forall j :: 0 <= j < k ==> rs[j].status == StatusTooManyRequests
    ensures k < n ==> rs[k].status != StatusTooManyRequests
  {
    if n == 0 then 0
    else
      var k := RateLimited(rs, n - 1);
      if k == n - 1 && rs[k].status == StatusTooManyRequests then n else k
  }

  /** Requests sent by either loop: up to and including the first reply
      that is not a 429, and never more than `MaxRetry`. */
  function Attempts<B>(rs: seq<Response<B>>): (n: nat)
    requires |rs| >= MaxRetry
    ensures 1 <= n <= MaxRetry
    ensures forall j :: 0 <= j < n - 1 ==> rs[j].status == StatusTooManyRequests
    ensures n < MaxRetry ==> rs[n - 1].status != StatusTooManyRequests
  {
    var k := RateLimited(rs, MaxRetry);
    if k < MaxRetry then k + 1 else MaxRetry
  }

  /** The result of `fetch_from_openai` for the replies `rs`. */
  function Generated(rs: seq<Response<Text>>): Option<Text>
    requires |rs| >= MaxRetry
  {
    var k := RateLimited(rs, MaxRetry);
    if k < MaxRetry && rs[k].status == StatusOk then Some(Strip(rs[k].body)) else None
  }

  /** `fetch_from_openai` returns the stripped message of a 200 that comes
      before any other non-429 status within `MaxRetry` attempts, and `None`
      otherwise: at once on another status, or after `MaxRetry` 429s. */
  lemma GeneratedSpec(rs: seq<Response<Text>>)
    requires |rs| >= MaxRetry
    ensures Generated(rs).Some? <==>
              (exists k :: 0 <= k < MaxRetry && rs[k].status == StatusOk
                           && forall j :: 0 <= j < k ==> rs[j].status == StatusTooManyRequests)
    ensures Generated(rs).Some? ==> rs[Attempts(rs) - 1].status == StatusOk
                                    && Generated(rs).value == Strip(rs[Attempts(rs) - 1].body)
    ensures (forall j :: 0 <= j < MaxRetry ==> rs[j].status == StatusTooManyRequests) ==> Generated(rs) == None
  {
  }

  /** The loop of `fetch_from_openai`; `attempts` counts the requests sent. */
  method FetchFromOpenAI(rs: seq<Response<Text>>) returns (content: Option<Text>, attempts: nat)
    requires |rs| >= MaxRetry
    ensures content == Generated(rs)
    ensures attempts == Attempts(rs)
  {
    for i := 0 to MaxRetry
      invariant forall j :: 0 <= j < i ==> rs[j].status == StatusTooManyRequests
    {
      if rs[i].status == StatusOk {
        return Some(Strip(rs[i].body)), i + 1;
      } else if rs[i].status == StatusTooManyRequests {
        // time.sleep(WAIT_TIME), then the next attempt
      } else {
        return None, i + 1;
      }
    }
    return None, MaxRetry;
  }

  /** The reply whose page `crawl_and_get_article` goes on to parse, if any. */
  function FetchedPage<B>(rs: seq<Response<B>>): Option<B>
    requires |rs| >= MaxRetry
  {
    var k := RateLimited(rs, MaxRetry);
    if k == MaxRetry then Some(rs[MaxRetry - 1].body)
    else if rs[k].status == StatusOk then Some(rs[k].body)
    else None
  }

  /** The page fetch gives up (`None`) only on a status other than 200 and
      429; it goes on with the first 200, and, having no failure exit for
      exhausted retries, with the last of `MaxRetry` 429 replies. */
  lemma FetchedPageSpec<B>(rs: seq<Response<B>>)
    requires |rs| >= MaxRetry
    ensures FetchedPage(rs).None? <==>
              (exists k :: 0 <= k < MaxRetry
                           && rs[k].status != StatusOk && rs[k].status != StatusTooManyRequests
                           && forall j :: 0 <= j < k ==> rs[j].status == StatusTooManyRequests)
    ensures forall k :: 0 <= k < MaxRetry && rs[k].status == StatusOk
                        && (forall j :: 0 <= j < k ==> rs[j].status == StatusTooManyRequests)
                        ==> FetchedPage(rs) == Some(rs[k].body)
    ensures (forall j :: 0 <= j < MaxRetry ==> rs[j].status == StatusTooManyRequests)
            ==> FetchedPage(rs) == Some(rs[MaxRetry - 1].body)
  {
  }

  /** The loop of lines 64-73; `attempts` counts the requests sent. */
  method FetchPage<B>(rs: seq<Response<B>>) returns (page: Option<B>, attempts: nat)
    requires |rs| >= MaxRetry
    ensures page == FetchedPage(rs)
    ensures attempts == Attempts(rs)
  {
    var r := rs[0];
    attempts := 0;
    for i := 0 to MaxRetry
      invariant attempts == i
      invariant forall j :: 0 <= j < i ==> rs[j].status == StatusTooManyRequests
      invariant i > 0 ==> r == rs[i - 1]
    {
      r := rs[i];
      attempts := i + 1;
      if r.status == StatusOk {
        break;
      } else if r.status == StatusTooManyRequests {
        // time.sleep(WAIT_TIME), then the next attempt
      } else {
        return None, attempts;
      }
    }
    page := Some(r.body);
  }
}
