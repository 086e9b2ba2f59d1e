/** The per-city crawl of scraper/main.py: one `scrape_city` attempt (fetch,
    wait out the CAPTCHA, extract, store, advance) and the sequential
    resume-and-retry rule of `with_limit`. The browser and the database are
    oracles carried by a `Session`; waiting is observed over finite sequences
    of reads and sessions. */
module Crawl {
  import opened Wrappers
  import opened Text
  import opened Numbers
  import opened Listing
  import opened Cities
  import opened Extract

  /** One read of the page (`page.get_content()`): the html text and its parse. */
  datatype Content = Content(html: string, doc: Document)

  const CaptchaMarker: string := "g-recaptcha"

  /** `"g-recaptcha" in html.lower()`. */
  predicate ShowsCaptcha(c: Content) {
    Contains(AsciiLower(c.html), CaptchaMarker)
  }

  /** What navigating to a url gives: the navigation raised, or the first read
      and the reads the CAPTCHA poll would make after it, in order. */
  datatype PageLoad = LoadFailed | Loaded(first: Content, later: seq<Content>)

  /** One browser session and the database as it behaves during it:
      `load` is `browser.get` plus the reads, `store` says whether
      `bulk_insert_listings` for a page and its rows succeeds. */
  datatype Session = Session(load: string -> PageLoad, store: (int, seq<Row>) -> bool)

  /* ---------------- the CAPTCHA wait ---------------- */

  /** The poll leaves its loop at read `j`: the first read without the marker. */
  predicate PollExitsAt(later: seq<Content>, j: nat) {
    j < |later| && !ShowsCaptcha(later[j]) && forall i :: 0 <= i < j ==> ShowsCaptcha(later[i])
  }

  /** The first read at `from` or later without the marker. */
  function FirstClear(later: seq<Content>, from: nat): (r: Option<nat>)
    requires from <= |later|
    ensures r.Some? ==> from <= r.value < |later| && !ShowsCaptcha(later[r.value])
    ensures r.Some? ==> forall i :: from <= i < r.value ==> ShowsCaptcha(later[i])
    ensures r.None? ==> forall i :: from <= i < |later| ==> ShowsCaptcha(later[i])
    decreases |later| - from
  {
    if from == |later| then None
    else if !ShowsCaptcha(later[from]) then Some(from)
    else FirstClear(later, from + 1)
  }

  /** The content the page is parsed from: the first read when it shows no
      CAPTCHA; otherwise the read after the one that ends the poll, which is
      not checked again. `None` when the observed reads end first, which the
      program experiences as waiting for ever. */
  function Settle(first: Content, later: seq<Content>): (r: Option<Content>)
    ensures !ShowsCaptcha(first) ==> r == Some(first)
    ensures ShowsCaptcha(first) ==>
      forall j: nat :: PollExitsAt(later, j) ==> r == (if j + 1 < |later| then Some(later[j + 1]) else None)
    ensures ShowsCaptcha(first) && (forall i :: 0 <= i < |later| ==> ShowsCaptcha(later[i])) ==> r.None?
  {
    if !ShowsCaptcha(first) then Some(first)
    else
      match FirstClear(later, 0)
      case None => None
      case Some(j) =>
        assert forall j': nat :: PollExitsAt(later, j') ==> j' == j by {
          forall j': nat | PollExitsAt(later, j') ensures j' == j {
            assert !(j' < j) && !(j < j');
          }
        }
        if j + 1 < |later| then Some(later[j + 1]) else None
  }

  /** The read that ends the poll is not the one parsed: a CAPTCHA shown again
      by the next read goes unnoticed. */
  lemma SettleSkipsExitRead(first: Content, later: seq<Content>, j: nat)
    requires ShowsCaptcha(first) && PollExitsAt(later, j) && j + 1 < |later|
    ensures Settle(first, later) == Some(later[j + 1])
  {
  }

  /* ---------------- one page ---------------- */

  datatype Fault = NavigationFailed | ExtractFailed(error: Error) | StoreFailed

  /** The outcome of one pass of the loop body of `scrape_city`. */
  datatype Step = Stalled | Faulted(fault: Fault) | Fetched(rows: seq<Row>, lastPage: int)

  /** Lines 278-303 of `scrape_city` for one page: navigate, wait out the
      CAPTCHA, extract, then insert the rows tagged with the page. `decode` is
      `json.loads` followed by typing of the top-level entries. */
  function FetchPage(city: City, page: int, s: Session, decode: string -> Decoded): (r: Step)
    ensures s.load(SearchUrl(city, page)).LoadFailed? ==> r == Faulted(NavigationFailed)
    ensures r.Fetched? ==> s.store(page, r.rows)
    ensures r.Fetched? ==> forall i :: 0 <= i < |r.rows| ==> r.rows[i].listedOnPage == page
  {
    match s.load(SearchUrl(city, page))
    case LoadFailed => Faulted(NavigationFailed)
    case Loaded(first, later) =>
      match Settle(first, later)
      case None => Stalled
      case Some(content) =>
        match ExtractPage(content.doc, decode)
        case Failure(e) => Faulted(ExtractFailed(e))
        case Success(data) =>
          var rows := ToRows(data.listings, page);
          if s.store(page, rows) then Fetched(rows, data.lastPage) else Faulted(StoreFailed)
  }

  /** Every outcome of one page, each with its cause. A failed navigation, a
      failed extraction and a failed insert raise, and so abort the attempt;
      only a CAPTCHA that never clears leaves the page stalled. A page is
      fetched exactly when it loads, the CAPTCHA wait ends, the extraction
      succeeds and the insert of its rows succeeds; it then yields the
      extracted listings tagged with the page and the extracted last page. */
  lemma FetchPageSpec(city: City, page: int, s: Session, decode: string -> Decoded)
    ensures var r := FetchPage(city, page, s, decode);
      var load := s.load(SearchUrl(city, page));
      load.LoadFailed? ==> r == Faulted(NavigationFailed)
    ensures var r := FetchPage(city, page, s, decode);
      var load := s.load(SearchUrl(city, page));
      r == Stalled <==> load.Loaded? && Settle(load.first, load.later).None?
    ensures var r := FetchPage(city, page, s, decode);
      var load := s.load(SearchUrl(city, page));
      load.Loaded? && Settle(load.first, load.later).Some? ==>
        var extracted := ExtractPage(Settle(load.first, load.later).value.doc, decode);
        extracted.Failure? ==> r == Faulted(ExtractFailed(extracted.error))
    ensures var r := FetchPage(city, page, s, decode);
      var load := s.load(SearchUrl(city, page));
      load.Loaded? && Settle(load.first, load.later).Some? ==>
        var extracted := ExtractPage(Settle(load.first, load.later).value.doc, decode);
        extracted.Success? && !s.store(page, ToRows(extracted.value.listings, page)) ==>
          r == Faulted(StoreFailed)
    ensures var r := FetchPage(city, page, s, decode);
      var load := s.load(SearchUrl(city, page));
      r.Fetched? <==>
        && load.Loaded?
        && Settle(load.first, load.later).Some?
        && ExtractPage(Settle(load.first, load.later).value.doc, decode).Success?
        && var data := ExtractPage(Settle(load.first, load.later).value.doc, decode).value;
           && s.store(page, ToRows(data.listings, page))
           && r == Fetched(ToRows(data.listings, page), data.lastPage)
  {
  }

  /** The page steps of one session: what one pass of the loop body does for each page. */
  function PageSteps(city: City, s: Session, decode: string -> Decoded): int -> Step {
    page => FetchPage(city, page, s, decode)
  }

  /* ---------------- one attempt: `scrape_city` ---------------- */

  /** One batch insert: the page it came from and the rows inserted. */
  datatype Batch = Batch(page: int, rows: seq<Row>)

  predicate Tagged(b: Batch) {
    forall i :: 0 <= i < |b.rows| ==> b.rows[i].listedOnPage == b.page
  }

  datatype Outcome = Completed | Aborted(fault: Fault) | Stuck

  /** What an attempt leaves behind: `scraped_pages` afterwards, the batches
      it inserted in order, and how it ended. */
  datatype Run = Run(scraped: seq<int>, batches: seq<Batch>, outcome: Outcome)

  /** `[p, p + 1, ..., p + n - 1]`. */
  function PagesFrom(p: int, n: nat): (ps: seq<int>)
    ensures |ps| == n && forall j :: 0 <= j < n ==> ps[j] == p + j
  {
    seq(n, j requires 0 <= j < n => p + j)
  }

  lemma PagesFromCons(p: int, n: nat)
    ensures [p] + PagesFrom(p + 1, n) == PagesFrom(p, n + 1)
  {
  }

  /** How many pages an attempt may scrape when `scraped_pages` already holds
      `k` entries and the cap is `cap`: the cap is checked only after a page. */
  function PageBudget(k: nat, cap: int): (b: nat)
    ensures b >= 1
    ensures k + b >= cap
    ensures b > 1 ==> k + b == cap
  {
    if cap - k > 1 then cap - k else 1
  }

  /** The measure that bounds an attempt: the room left under the cap. */
  function Room(scraped: seq<int>, cap: int): nat {
    if cap > |scraped| then cap - |scraped| else 0
  }

  /** `scrape_city` from `page` with `scraped` already recorded, as a function
      of the page steps. A page is recorded after its batch is inserted; the
      attempt stops after the page once the next page exceeds the last page the
      site reported, or once `scraped_pages` has reached the cap. */
  function Attempt(steps: int -> Step, page: int, scraped: seq<int>, cap: int): (r: Run)
    ensures r.scraped == scraped + PagesFrom(page, |r.batches|)
    ensures forall j :: 0 <= j < |r.batches| ==> r.batches[j].page == page + j
    ensures |r.batches| <= PageBudget(|scraped|, cap)
    ensures r.outcome.Completed? ==> |r.batches| >= 1
    decreases Room(scraped, cap)
  {
    match steps(page)
    case Stalled => Run(scraped, [], Stuck)
    case Faulted(f) => Run(scraped, [], Aborted(f))
    case Fetched(rows, last) =>
      var now := scraped + [page];
      if page + 1 > last || |now| >= cap then
        Run(now, [Batch(page, rows)], Completed)
      else
        var rest := Attempt(steps, page + 1, now, cap);
        PagesFromCons(page, |rest.batches|);
        assert now + PagesFrom(page + 1, |rest.batches|) == scraped + ([page] + PagesFrom(page + 1, |rest.batches|));
        Run(rest.scraped, [Batch(page, rows)] + rest.batches, rest.outcome)
  }

  /** `r` with `bs` inserted before its batches. */
  function After(bs: seq<Batch>, r: Run): Run {
    Run(r.scraped, bs + r.batches, r.outcome)
  }

  /** One unfolding of `Attempt`, for the loop that runs it. */
  lemma AttemptStep(steps: int -> Step, page: int, scraped: seq<int>, cap: int)
    ensures steps(page).Stalled? ==> Attempt(steps, page, scraped, cap) == Run(scraped, [], Stuck)
    ensures steps(page).Faulted? ==> Attempt(steps, page, scraped, cap) == Run(scraped, [], Aborted(steps(page).fault))
    ensures steps(page).Fetched? && (page + 1 > steps(page).lastPage || |scraped| + 1 >= cap) ==>
      Attempt(steps, page, scraped, cap) == Run(scraped + [page], [Batch(page, steps(page).rows)], Completed)
    ensures steps(page).Fetched? && !(page + 1 > steps(page).lastPage || |scraped| + 1 >= cap) ==>
      Attempt(steps, page, scraped, cap) == After([Batch(page, steps(page).rows)], Attempt(steps, page + 1, scraped + [page], cap))
  {
  }

  /** The loop goes on after page `p`, the `k`-th entry of `scraped_pages`:
      the page was stored, the next page is within the last page and the cap
      is not reached. */
  predicate GoesOn(step: Step, p: int, k: nat, cap: int) {
    step.Fetched? && p + 1 <= step.lastPage && k < cap
  }

  /** Run `r` follows the page steps from `page`: batch `j` holds the rows page
      `page + j` stored, the loop went on after every page but the last, it
      stopped after the last page exactly when the run completed, and
      otherwise the outcome is that of the step after the last batch. */
  ghost predicate FollowsSteps(steps: int -> Step, page: int, scraped: seq<int>, cap: int, r: Run) {
    && (forall j :: 0 <= j < |r.batches| ==> r.batches[j].page == page + j)
    && (forall j :: 0 <= j < |r.batches| ==>
          steps(r.batches[j].page).Fetched? && steps(r.batches[j].page).rows == r.batches[j].rows)
    && (forall j :: 0 <= j < |r.batches| - 1 ==> GoesOn(steps(r.batches[j].page), r.batches[j].page, |scraped| + j + 1, cap))
    && (r.outcome.Completed? ==> |r.batches| > 0 && !GoesOn(steps(page + |r.batches| - 1), page + |r.batches| - 1, |scraped| + |r.batches|, cap))
    && (!r.outcome.Completed? && |r.batches| > 0 ==>
          GoesOn(steps(page + |r.batches| - 1), page + |r.batches| - 1, |scraped| + |r.batches|, cap))
    && (r.outcome.Stuck? ==> steps(page + |r.batches|).Stalled?)
    && (r.outcome.Aborted? ==> steps(page + |r.batches|) == Faulted(r.outcome.fault))
  }

  /** An attempt follows its page steps, and it stops after a page exactly
      when the site's last page or the cap is reached there. */
  lemma {:induction false} AttemptFollowsSteps(steps: int -> Step, page: int, scraped: seq<int>, cap: int)
    ensures FollowsSteps(steps, page, scraped, cap, Attempt(steps, page, scraped, cap))
    decreases Room(scraped, cap)
  {
    var step := steps(page);
    AttemptStep(steps, page, scraped, cap);
    if step.Fetched? {
      var now := scraped + [page];
      if !(page + 1 > step.lastPage || |now| >= cap) {
        AttemptFollowsSteps(steps, page + 1, now, cap);
        FollowsStepsCons(steps, page, scraped, cap, Attempt(steps, page + 1, now, cap));
      }
    }
  }

  /** A page the loop went on after, placed before a run that follows the
      steps from the next page, gives a run that follows them from this page. */
  lemma FollowsStepsCons(steps: int -> Step, page: int, scraped: seq<int>, cap: int, rest: Run)
    requires GoesOn(steps(page), page, |scraped| + 1, cap)
    requires FollowsSteps(steps, page + 1, scraped + [page], cap, rest)
    ensures FollowsSteps(steps, page, scraped, cap, After([Batch(page, steps(page).rows)], rest))
  {
    var r := After([Batch(page, steps(page).rows)], rest);
    assert forall j :: 1 <= j < |r.batches| ==> r.batches[j] == rest.batches[j - 1];
    assert page + 1 + |rest.batches| - 1 == page + |r.batches| - 1;
    assert page + 1 + |rest.batches| == page + |r.batches|;
  }

  /** With the steps of a real session, every batch was stored and all its rows
      are tagged with its page. */
  lemma AttemptBatchesStored(city: City, s: Session, decode: string -> Decoded, page: int, scraped: seq<int>, cap: int)
    ensures var r := Attempt(PageSteps(city, s, decode), page, scraped, cap);
      forall j :: 0 <= j < |r.batches| ==> Tagged(r.batches[j]) && s.store(r.batches[j].page, r.batches[j].rows)
  {
    var steps := PageSteps(city, s, decode);
    var r := Attempt(steps, page, scraped, cap);
    AttemptFollowsSteps(steps, page, scraped, cap);
    forall j | 0 <= j < |r.batches| ensures Tagged(r.batches[j]) && s.store(r.batches[j].page, r.batches[j].rows) {
      FetchedIsStored(city, s, decode, r.batches[j]);
    }
  }

  lemma FetchedIsStored(city: City, s: Session, decode: string -> Decoded, b: Batch)
    requires PageSteps(city, s, decode)(b.page).Fetched? && PageSteps(city, s, decode)(b.page).rows == b.rows
    ensures Tagged(b) && s.store(b.page, b.rows)
  {
    assert PageSteps(city, s, decode)(b.page) == FetchPage(city, b.page, s, decode);
  }

  /** `scrape_city` as the loop the program runs. */
  method ScrapeCity(steps: int -> Step, scrapedIn: seq<int>, startAtPage: int, cap: int)
    returns (scraped: seq<int>, batches: seq<Batch>, outcome: Outcome)
    ensures Run(scraped, batches, outcome) == Attempt(steps, startAtPage, scrapedIn, cap)
    ensures scraped == scrapedIn + PagesFrom(startAtPage, |batches|)
    ensures |batches| <= PageBudget(|scrapedIn|, cap)
  {
    var current := startAtPage;
    scraped := scrapedIn;
    batches := [];
    outcome := Completed;
    var running := true;
    while running
      invariant running ==> Attempt(steps, startAtPage, scrapedIn, cap) == After(batches, Attempt(steps, current, scraped, cap))
      invariant !running ==> Attempt(steps, startAtPage, scrapedIn, cap) == Run(scraped, batches, outcome)
      decreases if running then Room(scraped, cap) + 1 else 0
    {
      var step := steps(current);
      AttemptStep(steps, current, scraped, cap);
      if step.Stalled? {
        outcome := Stuck;
        running := false;
      } else if step.Faulted? {
        outcome := Aborted(step.fault);
        running := false;
      } else {
        ghost var rest := Attempt(steps, current + 1, scraped + [current], cap);
        ghost var before := batches;
        batches := batches + [Batch(current, step.rows)];
        scraped := scraped + [current];
        current := current + 1;
        if current > step.lastPage || |scraped| >= cap {
          outcome := Completed;
          running := false;
        } else {
          assert before + ([Batch(current - 1, step.rows)] + rest.batches) == batches + rest.batches;
        }
      }
    }
  }

  /** With every page in the budget stored and not the last one, an attempt
      scrapes exactly its budget, duplicates in `scraped_pages` included. */
  lemma {:induction false} AttemptUsesWholeBudget(steps: int -> Step, page: int, scraped: seq<int>, cap: int)
    requires forall p :: page <= p < page + PageBudget(|scraped|, cap) ==> steps(p).Fetched? && p + 1 <= steps(p).lastPage
    ensures |Attempt(steps, page, scraped, cap).batches| == PageBudget(|scraped|, cap)
    ensures Attempt(steps, page, scraped, cap).outcome == Completed
    decreases Room(scraped, cap)
  {
    var now := scraped + [page];
    if |now| < cap {
      AttemptUsesWholeBudget(steps, page + 1, now, cap);
    }
  }

  /** A site reporting ten pages and a cap of three: a fresh attempt from page 0
      scrapes pages 0, 1 and 2. */
  lemma CapStopsAtThree(steps: int -> Step)
    requires forall p :: 0 <= p < 3 ==> steps(p).Fetched? && steps(p).lastPage == 9
    ensures Attempt(steps, 0, [], 3).scraped == [0, 1, 2]
    ensures Attempt(steps, 0, [], 3).outcome == Completed
  {
    AttemptUsesWholeBudget(steps, 0, [], 3);
    assert PagesFrom(0, 3) == [0, 1, 2];
  }

  /* ---------------- the retry rule of `with_limit` ---------------- */

  /** The two `ScraperConfig` values the crawl reads. */
  datatype Config = Config(startAtPage: int, maxPagesToScrape: int)

  /** `ScraperConfig()` with nothing set in the environment. */
  const DefaultConfig: Config := Config(0, 30)

  /** `scraped_pages` has a largest element and it is not 0. */
  predicate HasNonZeroMax(scraped: seq<int>) {
    |scraped| > 0 && MaxOf(scraped) != 0
  }

  /** `max(scraped_pages, default=None) or config.start_at_page`: both an empty
      list and a largest page of 0 fall back to the configured start. */
  function ResumePage(scraped: seq<int>, configured: int): int {
    if HasNonZeroMax(scraped) then MaxOf(scraped) else configured
  }

  /** The resume page is the largest recorded page when that exists and is not
      0, and the configured start otherwise. */
  lemma ResumePageSpec(scraped: seq<int>, configured: int)
    ensures (exists v :: v in scraped && v != 0 && forall w :: w in scraped ==> w <= v) ==>
      var p := ResumePage(scraped, configured);
      p in scraped && p != 0 && forall w :: w in scraped ==> w <= p
    ensures !(exists v :: v in scraped && v != 0 && forall w :: w in scraped ==> w <= v) ==>
      ResumePage(scraped, configured) == configured
  {
    if exists v :: v in scraped && v != 0 && forall w :: w in scraped ==> w <= v {
      var v :| v in scraped && v != 0 && forall w :: w in scraped ==> w <= v;
      assert MaxOf(scraped) == v;
    } else if |scraped| > 0 {
      assert MaxOf(scraped) in scraped;
    }
  }

  /** One attempt of the retry loop: where it started and what it did. */
  datatype AttemptLog = AttemptLog(start: int, run: Run)

  /** `Finished`: an attempt returned normally. `Hung`: an attempt waits for
      ever on a CAPTCHA. `StillRetrying`: every observed session failed. */
  datatype CityOutcome = Finished | Hung | StillRetrying

  datatype CityRun = CityRun(attempts: seq<AttemptLog>, outcome: CityOutcome)

  /** `scraped_pages` before attempt `j`. */
  function ScrapedBefore(attempts: seq<AttemptLog>, j: nat): seq<int>
    requires j <= |attempts|
  {
    if j == 0 then [] else attempts[j - 1].run.scraped
  }

  /** The page steps of each session in turn. */
  function SessionSteps(city: City, sessions: seq<Session>, decode: string -> Decoded): (ss: seq<int -> Step>)
    ensures |ss| == |sessions| && forall i :: 0 <= i < |sessions| ==> ss[i] == PageSteps(city, sessions[i], decode)
  {
    seq(|sessions|, i requires 0 <= i < |sessions| => PageSteps(city, sessions[i], decode))
  }

  /** The retry loop from attempt `|done|` on, one session (its page steps)
      per attempt. */
  function Retry(cfg: Config, sessions: seq<int -> Step>, done: seq<AttemptLog>): (r: CityRun)
    requires |done| <= |sessions|
    ensures |done| <= |r.attempts| <= |sessions| && r.attempts[..|done|] == done
    decreases |sessions| - |done|
  {
    if |done| == |sessions| then CityRun(done, StillRetrying)
    else
      var before := ScrapedBefore(done, |done|);
      var start := ResumePage(before, cfg.startAtPage);
      var run := Attempt(sessions[|done|], start, before, cfg.maxPagesToScrape);
      var now := done + [AttemptLog(start, run)];
      match run.outcome
      case Completed => CityRun(now, Finished)
      case Stuck => CityRun(now, Hung)
      case Aborted(_) =>
        var r := Retry(cfg, sessions, now);
        assert r.attempts[..|done|] == r.attempts[..|now|][..|done|];
        r
  }

  /** Attempt `j` of the log started where the resume rule says and ran
      `scrape_city` with session `j` on the pages recorded before it. */
  predicate Logged(cfg: Config, sessions: seq<int -> Step>, log: seq<AttemptLog>, j: nat)
    requires j < |log| && j < |sessions|
  {
    && log[j].start == ResumePage(ScrapedBefore(log, j), cfg.startAtPage)
    && log[j].run == Attempt(sessions[j], log[j].start, ScrapedBefore(log, j), cfg.maxPagesToScrape)
  }

  /** Every attempt in the log followed the rule, and all but the last `open` raised. */
  predicate FollowsRule(cfg: Config, sessions: seq<int -> Step>, log: seq<AttemptLog>, open: nat) {
    && |log| <= |sessions|
    && (forall j :: 0 <= j < |log| ==> Logged(cfg, sessions, log, j))
    && (forall j :: 0 <= j < |log| - open ==> log[j].run.outcome.Aborted?)
  }

  /** One unfolding of `Retry`. */
  lemma RetryStep(cfg: Config, sessions: seq<int -> Step>, done: seq<AttemptLog>)
    requires |done| < |sessions|
    ensures var before := ScrapedBefore(done, |done|);
      var start := ResumePage(before, cfg.startAtPage);
      var run := Attempt(sessions[|done|], start, before, cfg.maxPagesToScrape);
      var now := done + [AttemptLog(start, run)];
      && (run.outcome.Completed? ==> Retry(cfg, sessions, done) == CityRun(now, Finished))
      && (run.outcome.Stuck? ==> Retry(cfg, sessions, done) == CityRun(now, Hung))
      && (run.outcome.Aborted? ==> Retry(cfg, sessions, done) == Retry(cfg, sessions, now))
  {
  }

  /** Extending a log that follows the rule by the next attempt keeps it so. */
  lemma LogNext(cfg: Config, sessions: seq<int -> Step>, done: seq<AttemptLog>)
    requires |done| < |sessions| && FollowsRule(cfg, sessions, done, 0)
    ensures var before := ScrapedBefore(done, |done|);
      var start := ResumePage(before, cfg.startAtPage);
      var now := done + [AttemptLog(start, Attempt(sessions[|done|], start, before, cfg.maxPagesToScrape))];
      FollowsRule(cfg, sessions, now, 1)
  {
    var before := ScrapedBefore(done, |done|);
    var start := ResumePage(before, cfg.startAtPage);
    var now := done + [AttemptLog(start, Attempt(sessions[|done|], start, before, cfg.maxPagesToScrape))];
    forall j | 0 <= j < |now| ensures Logged(cfg, sessions, now, j) {
      if j < |done| {
        assert now[j] == done[j];
        assert ScrapedBefore(now, j) == ScrapedBefore(done, j);
        assert Logged(cfg, sessions, done, j);
      } else {
        assert ScrapedBefore(now, j) == before;
      }
    }
    assert forall j :: 0 <= j < |done| ==> now[j] == done[j];
  }

  /** What the retry loop's result looks like: its attempts follow the rule,
      and the outcome is read off the last attempt. */
  ghost predicate RetryShape(cfg: Config, sessions: seq<int -> Step>, r: CityRun) {
    && FollowsRule(cfg, sessions, r.attempts, 1)
    && (r.outcome == Finished <==> |r.attempts| > 0 && r.attempts[|r.attempts| - 1].run.outcome == Completed)
    && (r.outcome == Hung <==> |r.attempts| > 0 && r.attempts[|r.attempts| - 1].run.outcome == Stuck)
    && (r.outcome == StillRetrying ==> |r.attempts| == |sessions| && FollowsRule(cfg, sessions, r.attempts, 0))
  }

  /** The retry loop keeps to its rule from any log that does. */
  lemma {:induction false} RetryRuns(cfg: Config, sessions: seq<int -> Step>, done: seq<AttemptLog>)
    requires FollowsRule(cfg, sessions, done, 0)
    ensures RetryShape(cfg, sessions, Retry(cfg, sessions, done))
    decreases |sessions| - |done|
  {
    if |done| == |sessions| {
      RetryExhausted(cfg, sessions, done);
    } else {
      var before := ScrapedBefore(done, |done|);
      var start := ResumePage(before, cfg.startAtPage);
      var run := Attempt(sessions[|done|], start, before, cfg.maxPagesToScrape);
      var now := done + [AttemptLog(start, run)];
      RetryStep(cfg, sessions, done);
      LogNext(cfg, sessions, done);
      if run.outcome.Aborted? {
        assert FollowsRule(cfg, sessions, now, 0);
        RetryRuns(cfg, sessions, now);
      } else {
        RetryStops(cfg, sessions, now, if run.outcome.Completed? then Finished else Hung);
      }
    }
  }

  lemma RetryExhausted(cfg: Config, sessions: seq<int -> Step>, done: seq<AttemptLog>)
    requires FollowsRule(cfg, sessions, done, 0) && |done| == |sessions|
    ensures RetryShape(cfg, sessions, Retry(cfg, sessions, done))
  {
    assert Retry(cfg, sessions, done) == CityRun(done, StillRetrying);
    if |done| > 0 {
      assert done[|done| - 1].run.outcome.Aborted?;
    }
  }

  lemma RetryStops(cfg: Config, sessions: seq<int -> Step>, now: seq<AttemptLog>, outcome: CityOutcome)
    requires FollowsRule(cfg, sessions, now, 1) && |now| > 0
    requires outcome == Finished <==> now[|now| - 1].run.outcome == Completed
    requires outcome == Hung <==> now[|now| - 1].run.outcome == Stuck
    requires outcome != StillRetrying
    ensures RetryShape(cfg, sessions, CityRun(now, outcome))
  {
  }

  /** Every attempt of the retry loop starts where the resume rule says, runs
      `scrape_city` on the pages recorded so far with its own session, and every
      attempt but the last raised. The loop ends normally exactly when the last
      attempt completed. */
  lemma RetryFollowsRule(cfg: Config, sessions: seq<int -> Step>)
    ensures var r := Retry(cfg, sessions, []);
      && FollowsRule(cfg, sessions, r.attempts, 1)
      && (r.outcome == Finished <==> |r.attempts| > 0 && r.attempts[|r.attempts| - 1].run.outcome == Completed)
  {
    assert FollowsRule(cfg, sessions, [], 0);
    RetryRuns(cfg, sessions, []);
    assert RetryShape(cfg, sessions, Retry(cfg, sessions, []));
  }

  /** With at least one session the loop makes an attempt, and how it ends is
      decided by its last attempt: normal return finishes, a CAPTCHA that never
      clears hangs, and a raise means the observed sessions ran out. */
  lemma RetryOutcome(cfg: Config, sessions: seq<int -> Step>)
    requires |sessions| > 0
    ensures var r := Retry(cfg, sessions, []);
      && |r.attempts| > 0
      && (r.outcome == Finished <==> r.attempts[|r.attempts| - 1].run.outcome == Completed)
      && (r.outcome == Hung <==> r.attempts[|r.attempts| - 1].run.outcome == Stuck)
      && (r.outcome == StillRetrying <==> r.attempts[|r.attempts| - 1].run.outcome.Aborted?)
      && (r.outcome == StillRetrying ==> |r.attempts| == |sessions|)
  {
    assert FollowsRule(cfg, sessions, [], 0);
    RetryRuns(cfg, sessions, []);
    RetryStep(cfg, sessions, []);
    var start := ResumePage([], cfg.startAtPage);
    var now := [AttemptLog(start, Attempt(sessions[0], start, [], cfg.maxPagesToScrape))];
    assert ScrapedBefore([], 0) == [];
    if now[0].run.outcome.Aborted? {
      var rest := Retry(cfg, sessions, now);
      assert |rest.attempts| >= 1;
    }
  }

  /** `with_limit` for one city, as the loop the program runs: one session per
      attempt, until an attempt returns normally. */
  method RunCity(city: City, cfg: Config, sessions: seq<Session>, decode: string -> Decoded)
    returns (attempts: seq<AttemptLog>, outcome: CityOutcome)
    ensures CityRun(attempts, outcome) == Retry(cfg, SessionSteps(city, sessions, decode), [])
  {
    var steps := SessionSteps(city, sessions, decode);
    attempts := [];
    outcome := StillRetrying;
    var scraped: seq<int> := [];
    var running := true;
    while running
      invariant |attempts| <= |sessions|
      invariant scraped == ScrapedBefore(attempts, |attempts|)
      invariant running ==> Retry(cfg, steps, []) == Retry(cfg, steps, attempts)
      invariant !running ==> Retry(cfg, steps, []) == CityRun(attempts, outcome)
      decreases |sessions| - |attempts| + (if running then 1 else 0)
    {
      if |attempts| == |sessions| {
        outcome := StillRetrying;
        running := false;
      } else {
        var start := ResumePage(scraped, cfg.startAtPage);
        var pages, batches, result := ScrapeCity(steps[|attempts|], scraped, start, cfg.maxPagesToScrape);
        attempts := attempts + [AttemptLog(start, Run(pages, batches, result))];
        scraped := pages;
        if result.Completed? {
          outcome := Finished;
          running := false;
        } else if result.Stuck? {
          outcome := Hung;
          running := false;
        }
      }
    }
  }

  /** All the pages the attempts recorded, in order: the final `scraped_pages`. */
  function FinalScraped(r: CityRun): seq<int> {
    ScrapedBefore(r.attempts, |r.attempts|)
  }

  /** The pages recorded so far form the interval from the configured start to
      their largest element: resuming never skips a page. */
  ghost predicate Contiguous(scraped: seq<int>, lo: int) {
    |scraped| > 0 ==> forall v :: v in scraped <==> lo <= v <= MaxOf(scraped)
  }

  lemma ExtendContiguous(scraped: seq<int>, lo: int, p: int, n: nat)
    requires Contiguous(scraped, lo)
    requires |scraped| == 0 ==> p == lo
    requires |scraped| > 0 ==> lo <= p <= MaxOf(scraped)
    ensures Contiguous(scraped + PagesFrom(p, n), lo)
  {
    var all := scraped + PagesFrom(p, n);
    if |all| > 0 {
      var m := MaxOf(all);
      var top := if |scraped| > 0 && (n == 0 || MaxOf(scraped) >= p + n - 1) then MaxOf(scraped) else p + n - 1;
      assert top in all by {
        if |scraped| > 0 && (n == 0 || MaxOf(scraped) >= p + n - 1) {
        } else {
          assert PagesFrom(p, n)[n - 1] == top;
        }
      }
      forall v | v in all ensures v <= top {
        if v !in scraped {
          var j :| 0 <= j < n && PagesFrom(p, n)[j] == v;
        }
      }
      assert m == top;
      forall v | lo <= v <= top ensures v in all {
        if |scraped| > 0 && v <= MaxOf(scraped) {
          assert v in scraped;
        } else {
          assert PagesFrom(p, n)[v - p] == v;
        }
      }
    }
  }

  /** Whatever the sessions do, the final `scraped_pages` covers exactly the
      pages from the configured start to its largest page. */
  lemma {:induction false} RetryNoGaps(cfg: Config, sessions: seq<int -> Step>, done: seq<AttemptLog>)
    requires FollowsRule(cfg, sessions, done, 0)
    requires Contiguous(ScrapedBefore(done, |done|), cfg.startAtPage)
    ensures Contiguous(FinalScraped(Retry(cfg, sessions, done)), cfg.startAtPage)
    decreases |sessions| - |done|
  {
    if |done| < |sessions| {
      var before := ScrapedBefore(done, |done|);
      var start := ResumePage(before, cfg.startAtPage);
      var run := Attempt(sessions[|done|], start, before, cfg.maxPagesToScrape);
      var now := done + [AttemptLog(start, run)];
      RetryStep(cfg, sessions, done);
      ResumeInRange(before, cfg.startAtPage);
      ExtendContiguous(before, cfg.startAtPage, start, |run.batches|);
      assert ScrapedBefore(now, |now|) == run.scraped;
      if run.outcome.Aborted? {
        LogNext(cfg, sessions, done);
        assert FollowsRule(cfg, sessions, now, 0);
        RetryNoGaps(cfg, sessions, now);
      }
    }
  }

  /** The resume page lies within the pages recorded so far, or is the
      configured start when none are. */
  lemma ResumeInRange(scraped: seq<int>, lo: int)
    requires Contiguous(scraped, lo)
    ensures |scraped| == 0 ==> ResumePage(scraped, lo) == lo
    ensures |scraped| > 0 ==> lo <= ResumePage(scraped, lo) <= MaxOf(scraped)
  {
    if |scraped| > 0 {
      assert MaxOf(scraped) in scraped;
    }
  }

  /** The final `scraped_pages` of a whole run covers an interval. */
  lemma RunNoGaps(cfg: Config, sessions: seq<int -> Step>)
    ensures Contiguous(FinalScraped(Retry(cfg, sessions, [])), cfg.startAtPage)
  {
    assert FollowsRule(cfg, sessions, [], 0);
    RetryNoGaps(cfg, sessions, []);
  }

  /** A resumed attempt starts on the largest page already recorded, so when
      that attempt stores its first page, that page is recorded twice. */
  lemma ResumeRescrapes(cfg: Config, scraped: seq<int>, steps: int -> Step)
    requires HasNonZeroMax(scraped)
    requires |Attempt(steps, ResumePage(scraped, cfg.startAtPage), scraped, cfg.maxPagesToScrape).batches| >= 1
    ensures var r := Attempt(steps, ResumePage(scraped, cfg.startAtPage), scraped, cfg.maxPagesToScrape);
      multiset(r.scraped)[MaxOf(scraped)] >= 2
  {
    var p := MaxOf(scraped);
    var r := Attempt(steps, p, scraped, cfg.maxPagesToScrape);
    var added := PagesFrom(p, |r.batches|);
    assert added[0] == p;
    assert multiset(r.scraped) == multiset(scraped) + multiset(added);
    assert p in multiset(scraped) && p in multiset(added);
  }

  /** A record whose largest page is 0, or an empty record, sends the next
      attempt back to the configured start: `max(scraped_pages)` is 0 and so
      falsy, and `or` picks the configured page. With a configured start other
      than 0, an attempt that recorded only page 0 thus does not resume there. */
  lemma ZeroFallsBack(scraped: seq<int>, cfg: Config)
    requires |scraped| > 0 ==> MaxOf(scraped) == 0
    ensures ResumePage(scraped, cfg.startAtPage) == cfg.startAtPage
  {
  }
}
