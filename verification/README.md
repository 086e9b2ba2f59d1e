# wg-watch crawler and geocoder, modelled in Dafny

wg-watch collects flat-share listings from wg-gesucht.de and puts them on a map.
This project models the two parts of it that hold real logic.

- **The crawler** (`scraper/main.py`) works in two layers:
  - An extraction layer reads one fetched search page. It finds the
    structured-data script and normalizes it, picks the `CollectionPage`
    entry and flattens its items, reads each listing's id from its url, and
    looks up the listing's area in bold text under the element carrying that
    id. It then merges the areas into the listings, reads the last page
    number from the pagination links, and flattens every listing into a
    database row tagged with its page.
  - A crawl layer holds the two loops around it. `scrape_city` walks pages
    from a start page, waits out a CAPTCHA, inserts each page's rows, and
    stops at the site's last page or at the page cap. The retry loop of
    `with_limit` restarts a failed attempt from the largest page recorded
    so far.
- **The geocoder** (`geocode/main.py`) formats each stored address as one line
  of text. It splits the address list round-robin over eight worker
  processes, and each worker geocodes its addresses one at a time, saving a
  location for each address the geocoder resolves.

The HTML page appears as an already parsed `Document`:
- the `head > script` texts;
- the elements carrying a `data-id`, each with the stripped texts of its `<b>` tags;
- the labels of the pagination links, when the pagination element exists.

`json.loads` followed by pydantic validation appears as a `Decoded` value. The
browser, the database and the Google Maps client are oracles passed in as
functions:
- `Session.load` gives what navigating to a url yields: a failure, or the
  successive reads of the page content.
- `Session.store` says whether a batch insert succeeds.
- `geocode` maps an address line to the client's reply.
- `save` says whether saving a location succeeds.

The regular expressions `\.(\d+)\.html` and `\b\d+\s?m²\b` are stated as
predicates over the text. They are implemented as explicit scanners. The id
scanner and the first-number scanner are proved to find the leftmost match.
The area scanner is proved to decide whether a match exists anywhere.

Modules, in dependency order:
- `Wrappers`: `Option` and `Result`.
- `Text`: `str.strip`, `split`, `join`, `replace`, `lower`, and `in`.
- `Numbers`: `int(...)`, `str(...)` and `max`.
- `Listing`: the scraped records and the database row.
- `Cities`: the city table and the search url.
- `Extract`: the extraction layer.
- `Crawl`: `scrape_city` and `with_limit`.
- `Geocode`: the geocoding job.

Quirks of the program that the model keeps:
- `scraped_pages` can hold a page twice. A resumed attempt starts on
  the largest page already recorded, so that page is scraped and recorded a
  second time (`Crawl.ResumeRescrapes`). The page cap counts this duplicate.
  What does hold is that the recorded pages cover an interval with no gaps
  (`Crawl.RunNoGaps`).
- The area of a listing is the first number in the first bold text that
  contains an area. It is not necessarily the number in front of `m²`
  (`Extract.AreaTakesFirstNumber`).
- The last page is `max(nums) - 1` over the numeric labels, and 0 when
  none is numeric. Adding labels never lowers it once a numeric label is
  present. From no numeric label, adding the single label `0` lowers it
  from 0 to -1 (`Extract.LastPageNotMonotoneFromNone`).

## Model

| member | source | states |
|---|---|---|
| Cities.CityTable | scraper/main.py:90-101 | every city has its own site id, looking the id up again gives the city back, and the default city list holds each city exactly once |
| Cities.CityWithId | scraper/main.py:90-101 | the inverse of `city_to_id`: the city found has that id, and when none is found no city has it |
| Cities.SearchUrlInjective | scraper/main.py:116-125 | two search urls are equal only for the same city and page, so a page fetch keyed by url is one keyed by city and page |
| Numbers.ParseIntOfIntToString | scraper/main.py:263 | `int(str(i)) == i` for every integer, the parser used on pagination labels |
| Numbers.NatToStringOfValue | scraper/main.py:135 | printing the value of a digit string without a leading zero gives the string back |
| Numbers.MaxOf | scraper/main.py:266 | `max` of a non-empty list is an element of it and at least every element |
| Text.Strip | scraper/main.py:250 | `str.strip` removes a whitespace prefix and a whitespace suffix, leaving no whitespace at either end |
| Text.ReplaceIsJoinOfSplit | scraper/main.py:251 | the left-to-right `replace` scanner equals joining the pieces of a split with the replacement |
| Text.SplitJoin | geocode/main.py:12-19 | splitting a join at its separator gives the pieces back when no piece contains the separator's first character |
| Listing.ToRows | scraper/main.py:199-228 | one row per listing, in order, each tagged with the page it was listed on |
| Listing.FromRowToRow | scraper/main.py:199-228 | a row records exactly the listing with every missing nesting (provider, main entity, address) collapsed to absent fields |
| Listing.ToRowFromRow | scraper/main.py:199-228 | every row is the row of the listing rebuilt from it, so the row mapping loses nothing beyond the collapse |
| Listing.RowsAgreeIffCanonicalAgree | scraper/main.py:204-225 | two listings give the same row exactly when they agree after the collapse |
| Extract.IdPatternMaximal | scraper/main.py:129 | the digit group of a `\.(\d+)\.html` match is the whole run of digits after the dot |
| Extract.FindIdMatch | scraper/main.py:131 | the scanner returns the leftmost position where the pattern matches, or none when it matches nowhere |
| Extract.ExtractListingId | scraper/main.py:128-142 | fails with the url exactly when the pattern matches nowhere; otherwise returns the value of the digit group of the leftmost match |
| Extract.LeftmostIdMatchDecides | scraper/main.py:131-136 | whatever the leftmost match is, the id is the value of its digits |
| Extract.ListingUrlId | scraper/main.py:128-136 | a listing url of the form prefix `.` printed id `.html` rest gives back that id, when no dot of the prefix precedes a digit |
| Extract.ExampleListingId | scraper/main.py:128-136 | `https://www.wg-gesucht.de/wohnungen-in-Berlin-Mitte.123456.html` gives 123456 |
| Extract.ListingIdDropsLeadingZeros | scraper/main.py:135 | an id written with a leading zero comes back without it |
| Extract.AreaPatternMaximal | scraper/main.py:156 | the digits of a `\b\d+\s?m²\b` match are a whole run of digits |
| Extract.FindArea | scraper/main.py:156-160 | the scanner finds a match exactly when the area pattern matches somewhere |
| Extract.FirstNumber | scraper/main.py:162-164 | `re.search(r"\d+")` with `int`: none exactly when the text has no digit, and the value of the maximal run of digits at the first digit otherwise |
| Extract.AreaOfText | scraper/main.py:159-165 | a bold text yields an area exactly when it matches the area pattern, and the area is its first number |
| Extract.AreaTakesFirstNumber | scraper/main.py:160-165 | "2 Zimmer, 35 m²" yields 2, not 35 |
| Extract.AreaExamples | scraper/main.py:155-165 | "22 m²" yields 22, and "22 qm" yields nothing |
| Extract.BoldsUnder | scraper/main.py:146-153 | the bold texts collected are exactly those of the elements whose `data-id` equals the key |
| Extract.BoldsUnderOne | scraper/main.py:146-153 | one element contributes all its bold texts, in order, when its `data-id` is the key, and none otherwise |
| Extract.BoldsUnderAppend | scraper/main.py:146-153 | the bold texts of a document split in two are those of the first part followed by those of the second: document order, duplicates kept |
| Extract.FirstAreaAppend | scraper/main.py:158-166 | the first area among two bold lists placed one after the other is that of the first list, or else that of the second |
| Extract.FirstAreaOfFirstBold | scraper/main.py:145-167 | the area found is that of the first bold, in document order across the matching elements, whose text has an area |
| Extract.FirstBoldWins | scraper/main.py:158-166 | of two bold texts with an area under the same element, the first one decides |
| Extract.FirstArea | scraper/main.py:158-167 | none exactly when no bold text yields an area; otherwise the area of the first one that does |
| Extract.SquareMetersSource | scraper/main.py:145-167 | the area found for an id is that of the first bold text, in document order under the elements with that `data-id`, that has an area; none is found exactly when no such bold text has one |
| Extract.SquareMetersFor | scraper/main.py:176-181 | a listing without url gets no area; one with a url gets the area of its id, or the id error |
| Extract.AddSquareMeters | scraper/main.py:170-187 | succeeds exactly when every listing's url is absent or has an id; then output `i` wraps listing `i` unchanged with its area; otherwise the first failing listing's error aborts the batch |
| Extract.AreaNeedsAnchor | scraper/main.py:176-181 | an area is attached only to a listing whose url has an id carried by some element's `data-id` |
| Extract.FindListingScript | scraper/main.py:247-249 | the index of the first script containing the product marker, or none when no script does |
| Extract.ExtractListingsText | scraper/main.py:246-252 | fails exactly when no head script contains the marker; otherwise the normalized text of the first one that does |
| Extract.NormalizeScriptSplits | scraper/main.py:250-251 | the normalized text is the stripped text minus its last character with every `@type` split out and rejoined as `type`, and joining the pieces with `@type` restores the text |
| Extract.FindCollection | scraper/main.py:237-239 | the position of the first `CollectionPage` object, none when there is none, and an error on a non-object before it |
| Extract.FindCollectionAt | scraper/main.py:237-239 | the first collection entry, after only other objects, is the one chosen |
| Extract.ParseListings | scraper/main.py:233-243 | errors for malformed or non-list payloads; no collection gives no listings; otherwise the items of the first collection entry in list order |
| Extract.ItemsIgnorePosition | scraper/main.py:243 | the listings are the items in list order, and `position` plays no part |
| Extract.ParseListingsIgnoresLaterEntries | scraper/main.py:237-243 | entries after the chosen collection entry do not change the result |
| Extract.LabelNumbers | scraper/main.py:259-265 | the numbers kept are exactly the labels that `int(label.strip())` accepts |
| Extract.LastPageOfLabelsSpec | scraper/main.py:266 | 0 when no label is numeric; otherwise the largest numeric label minus one |
| Extract.LastPageNumber | scraper/main.py:255-266 | fails exactly when the pagination element is absent; otherwise the last page of its labels |
| Extract.LastPageMonotone | scraper/main.py:260-266 | once some label is numeric, more labels never lower the last page |
| Extract.LastPageNotMonotoneFromNone | scraper/main.py:266 | no labels give 0 while the single label "0" gives -1 |
| Extract.LastPageExample | scraper/main.py:266 | labels 1 to 5 give last page 4 |
| Extract.ExtractPage | scraper/main.py:291-297 | the page steps run in the program's order: the page succeeds exactly when every step does, the first failing step's error is the page's error, and a success carries the merged listings and the last page |
| Crawl.FirstClear | scraper/main.py:285-287 | the first read without the CAPTCHA marker, with every earlier read showing it, or none when every observed read shows it |
| Crawl.Settle | scraper/main.py:283-289 | the first read when it shows no CAPTCHA; otherwise the read after the one that ends the poll; none while the CAPTCHA persists |
| Crawl.SettleSkipsExitRead | scraper/main.py:285-289 | after the poll ends at read `j`, the page is parsed from read `j + 1`, whatever that read shows |
| Crawl.FetchPage | scraper/main.py:277-302 | a failed navigation aborts the attempt, and a fetched page's rows were stored and are tagged with the page |
| Crawl.FetchPageSpec | scraper/main.py:277-302 | every outcome of one page with its cause: a failed navigation, extraction or insert raises (`NavigationFailed`, `ExtractFailed` with the extraction's error, `StoreFailed`); the page stalls exactly when it loads and the CAPTCHA never clears; it is fetched exactly when every step succeeds, giving the tagged rows and the extracted last page |
| Crawl.PageBudget | scraper/main.py:307-315 | an attempt starting with `k` recorded pages may do at least one page, and more than one only up to the cap |
| Crawl.Attempt | scraper/main.py:275-315 | pages `start, start + 1, ...` are processed in order, one batch per page tagged with it, recorded after the insert; the number of pages is within the budget |
| Crawl.AttemptFollowsSteps | scraper/main.py:275-315 | batch `j` holds what page `start + j` fetched; every page but the last went on; the attempt stopped after its last page exactly when it completed, and otherwise the outcome is what the page after the last batch did |
| Crawl.AttemptBatchesStored | scraper/main.py:299-307 | with a real session, every batch was stored, and all its rows carry its page |
| Crawl.AttemptUsesWholeBudget | scraper/main.py:307-315 | when every page in the budget is fetched and is not the site's last page, the attempt completes after exactly the budget |
| Crawl.CapStopsAtThree | scraper/main.py:307-315 | with ten pages on the site and a cap of three, an attempt from page 0 records 0, 1, 2 and completes |
| Crawl.ScrapeCity | scraper/main.py:269-320 | the loop records the pages from the start page in order and does what `Attempt` describes, within the page budget |
| Crawl.ResumePageSpec | scraper/main.py:343-344 | a new attempt starts at the largest recorded page when that exists and is not 0, else at the configured start |
| Crawl.ZeroFallsBack | scraper/main.py:343-344 | every record that is empty or whose largest page is 0 (such as `[0]`, `[0, 0]` or `[-3, 0]`) restarts at the configured start, because 0 is falsy |
| Crawl.Retry | scraper/main.py:337-373 | the retry loop extends the log of attempts and never rewrites an earlier one |
| Crawl.RetryFollowsRule | scraper/main.py:337-373 | each attempt starts where the resume rule says on the pages recorded before it, with its own session, and every attempt but the last raised; the loop finishes exactly when the last attempt returned normally |
| Crawl.RetryOutcome | scraper/main.py:340-373 | with at least one session an attempt is made, and the last attempt decides the end: normal return finishes, a CAPTCHA that never clears hangs, a raise means every observed session was used |
| Crawl.RunCity | scraper/main.py:337-373 | the loop the program runs gives the run `Retry` describes |
| Crawl.RetryNoGaps | scraper/main.py:338-363 | across retries the recorded pages cover exactly the interval from the configured start, whatever its sign, to their largest element |
| Crawl.ResumeInRange | scraper/main.py:343-344 | the resume page lies within the recorded pages, or is the configured start when none are recorded |
| Crawl.RunNoGaps | scraper/main.py:338-363 | a whole run records an interval of pages without gaps |
| Crawl.ResumeRescrapes | scraper/main.py:343-362 | a resumed attempt that does any page records the largest recorded page a second time |
| Geocode.FormatAddressSplits | geocode/main.py:12-19 | splitting the address line at ", " gives street, locality, region, postal code and country in that order, when no field has a comma |
| Geocode.FormatAddressInjective | geocode/main.py:12-19 | comma-free addresses give the same line exactly when their fields print alike |
| Geocode.MissingLooksLikeNone | geocode/main.py:12-19 | a missing street prints as `None`, like a street named "None" |
| Geocode.GeocodeOneSpec | geocode/main.py:65-95 | a location is saved exactly when the first result has coordinates and the save succeeds; it carries the five address fields unchanged and those coordinates; an empty result saves nothing |
| Geocode.Outcomes | geocode/main.py:65-95 | one outcome per address, in order, each depending only on its own address |
| Geocode.SavedComeFromAddresses | geocode/main.py:80-90 | every saved location is the outcome of some address |
| Geocode.GeocodeLocations | geocode/main.py:58-95 | the loop gives every address its outcome, catching the failure of one and going on, and saves the located ones in order |
| Geocode.OutcomesAppend | geocode/main.py:65-95 | processing a list is processing its parts one after the other: no address's failure affects another |
| Geocode.SavedForPermutation | geocode/main.py:65-95 | reordering the addresses only reorders the saved locations |
| Geocode.StrideLength | geocode/main.py:116 | `xs[i::n]` has one element per position `i + j * n` inside the list, and none when `i` is past its end |
| Geocode.StrideIndex | geocode/main.py:116 | element `j` of `xs[i::n]` is element `i + j * n` of the list |
| Geocode.Chunks | geocode/main.py:110-116 | exactly `n` chunks, chunk `i` being `xs[i::n]` |
| Geocode.ChunkOf | geocode/main.py:116 | position `k` of the list is in chunk `k % n` at position `k / n` |
| Geocode.ChunkPositions | geocode/main.py:116 | chunk `i` holds only positions congruent to `i` modulo `n`, in order |
| Geocode.ChunkSizesBalanced | geocode/main.py:116 | chunk sizes differ by at most one |
| Geocode.ChunksPartition | geocode/main.py:116 | the chunks together hold every address exactly as often as the list does |
| Geocode.PoolSavesSameLocations | geocode/main.py:110-122 | the eight workers together save the same locations as one sequential run over the whole list, up to order |

The rows for `Extract.ExtractPage`, `Extract.ParseListings`,
`Crawl.FetchPageSpec`, `Geocode.Chunks` and `Geocode.Outcomes` state how
each operation composes its steps, case by case. What the steps themselves
do is stated by the rows of the parts they compose: `Crawl.Settle` and
`Crawl.FirstClear` for the CAPTCHA wait, `Extract.ExtractListingId` and
`Extract.SquareMetersSource` for the listing areas, `Extract.FindCollection`
for the payload, `Geocode.StrideIndex` and `Geocode.StrideLength` for the
chunks, and `Geocode.GeocodeOneSpec` for one address.

## Left out

- Concurrency: the semaphore and the `gather` fan-out of the crawler are
  left out, and so is the worker pool of the geocoder (its processes are
  modelled as running one after the other). Only the sequential per-city
  policy and the per-chunk loop are modelled.
- Browser control and timing: starting and stopping the browser, the
  unbound `browser` in the retry path, and every `asyncio.sleep`. A session
  is a given sequence of page reads.
- The CAPTCHA poll and the retry loop can wait forever. Both are modelled
  over a finite observation, and the finite runs end in the outcomes
  `Stuck`/`Hung` and `StillRetrying`. `Stuck`/`Hung` means the observed
  reads end before the page is parsed: either they all show the CAPTCHA, or
  the CAPTCHA clears only on the last observed read, which leaves no further
  read to parse. `StillRetrying` means
  the observed sessions all raised.
- BeautifulSoup parsing, `json.loads` and pydantic validation are foreign
  libraries. They are replaced by the `Document` and `Decoded` values.
- Python `int()` corner cases are left out: underscores between digits and
  non-ASCII digits. Labels are parsed as an optional sign followed by ASCII
  digits after `strip()`.
- The regex class `\d` is modelled as the ASCII digits `0`-`9` (`IsDigit`,
  used by the id, area and first-number scanners). Python's `\d` also
  matches every other Unicode decimal digit, in urls and in bold texts.
- `\w` is modelled for ASCII and Latin-1. Characters above U+00FF count as
  non-word characters.
- `str.lower()` is modelled on ASCII letters only. The CAPTCHA test compares
  against an all-ASCII marker that no other character lowercases into, so
  the test gives the same answer.
- `HttpUrl` normalisation is left out: urls are kept as the text they came
  with.
- Floats (prices, coordinates) are opaque tokens.
- The Django ORM, `timezone.now`, the environment-driven `ScraperConfig`,
  logging, and the SQL query `_load_addresses` (geocode/main.py:22-55) are
  left out. The config values are parameters, and the addresses are given.
- Crawl.ScrapeCity: runs on abstract page steps (`int -> Step`); a real
  session's steps are `Crawl.PageSteps`, which `Crawl.AttemptBatchesStored`
  connects to the stored rows.
- Crawl.FetchPage: its own contract covers only navigation failure and the
  tagging and storing of fetched rows. The lemma `Crawl.FetchPageSpec`
  states every outcome: each failure with its fault, the stall, and the
  fetched page.
- Geocode.FormatAddressSplits: the round trip is stated only for fields
  without commas, because a comma inside a field makes the line ambiguous.
- A missing address key would raise `KeyError` in `_format_address`, which
  runs outside the `try`. The model does not include this, because the
  query always returns all five columns.
