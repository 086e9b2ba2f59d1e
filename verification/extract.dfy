/** The pure extraction layer of scraper/main.py: everything the crawler derives
    from one already fetched and parsed page. The parsed page is abstract
    (`Document`); the regular expressions are explicit scanners whose regex
    meaning is stated as predicates. */
module Extract {
  import opened Wrappers
  import opened Text
  import opened Numbers
  import opened Listing

  /** An element carrying an optional `data-id` attribute, with the stripped texts
      of the `<b>` tags beneath it in document order. */
  datatype Element = Element(dataId: Option<string>, bolds: seq<string>)

  /** The element with id `assets_list_pagination`: the texts of its
      `a.page-link` anchors. */
  datatype Pagination = Pagination(labels: seq<string>)

  /** A parsed page: the texts of the `head > script` tags, the elements of the
      body in document order, and the pagination element if there is one. */
  datatype Document = Document(
    headScripts: seq<string>,
    elements: seq<Element>,
    pagination: Option<Pagination>)

  /** `ListItem`: the `position` field is decoded but never used. */
  datatype ListItem = ListItem(position: int, item: Listing)

  /** A validated `CollectionPage`; only `mainEntity.itemListElement` is used. */
  datatype CollectionPage = CollectionPage(items: seq<ListItem>)

  /** One top-level entry of the decoded payload. An object carries its `"type"`
      value (`None` when absent or not a string) and the outcome of validating it
      as a `CollectionPage` (`None` when validation raises). */
  datatype Entry = NonObject | Object(typeTag: Option<string>, asCollectionPage: Option<CollectionPage>)

  /** What `json.loads` gives back: a syntax error, a value that cannot be
      iterated (number, boolean, null), or the sequence iteration yields (the
      elements of a list; the keys of an object and the characters of a string
      are `NonObject` entries). */
  datatype Decoded = Malformed | NotIterable | Entries(entries: seq<Entry>)

  /** The exceptions the extraction functions raise. */
  datatype Error =
    | NoListingScript
    | InvalidJson
    | NotAList
    | EntryNotAnObject
    | InvalidCollectionPage
    | NoListingId(url: string)
    | NoPagination

  /* ---------------- `\.(\d+)\.html`: the listing id of a url ---------------- */

  const HtmlSuffix: string := ".html"

  /** The length of the run of digits in `s` that starts at `j`. */
  function DigitRun(s: string, j: nat): (k: nat)
    requires j <= |s|
    ensures j + k <= |s|
    ensures forall p :: j <= p < j + k ==> IsDigit(s[p])
    ensures j + k == |s| || !IsDigit(s[j + k])
    decreases |s| - j
  {
    if j < |s| && IsDigit(s[j]) then 1 + DigitRun(s, j + 1) else 0
  }

  /** The regex `\.(\d+)\.html` matches at `i` with a group of `k` digits. */
  predicate IdPatternAt(s: string, i: nat, k: nat) {
    && i + 1 + k <= |s|
    && s[i] == '.'
    && 1 <= k
    && AllDigits(s[i + 1..i + 1 + k])
    && OccursAt(s, HtmlSuffix, i + 1 + k)
  }

  /** A match's digit group is the whole run of digits after the dot. */
  lemma IdPatternMaximal(s: string, i: nat, k: nat)
    requires IdPatternAt(s, i, k)
    ensures k == DigitRun(s, i + 1)
  {
    assert s[i + 1 + k] == HtmlSuffix[0];
    assert forall p :: i + 1 <= p < i + 1 + k ==> IsDigit(s[p]) by {
      forall p | i + 1 <= p < i + 1 + k ensures IsDigit(s[p]) {
        assert s[i + 1..i + 1 + k][p - (i + 1)] == s[p];
      }
    }
  }

  /** The leftmost position, from `from` on, where `\.(\d+)\.html` matches. */
  function FindIdMatch(s: string, from: nat): (r: Option<nat>)
    requires from <= |s|
    ensures r.Some? ==> from <= r.value < |s| && IdPatternAt(s, r.value, DigitRun(s, r.value + 1))
    ensures r.Some? ==> forall i: nat, k: nat :: from <= i < r.value ==> !IdPatternAt(s, i, k)
    ensures r.None? ==> forall i: nat, k: nat :: from <= i ==> !IdPatternAt(s, i, k)
    decreases |s| - from
  {
    if from == |s| then None
    else if IdPatternAt(s, from, DigitRun(s, from + 1)) then Some(from)
    else
      NoIdMatchAt(s, from);
      var r := FindIdMatch(s, from + 1);
      NoIdMatchBefore(s, from, r);
      r
  }

  /** No match at `from` extends "no match from `from + 1` up to `r`" to
      "no match from `from` up to `r`". */
  lemma NoIdMatchBefore(s: string, from: nat, r: Option<nat>)
    requires forall k: nat :: !IdPatternAt(s, from, k)
    requires r.Some? ==> forall i: nat, k: nat :: from + 1 <= i < r.value ==> !IdPatternAt(s, i, k)
    requires r.None? ==> forall i: nat, k: nat :: from + 1 <= i ==> !IdPatternAt(s, i, k)
    ensures r.Some? ==> forall i: nat, k: nat :: from <= i < r.value ==> !IdPatternAt(s, i, k)
    ensures r.None? ==> forall i: nat, k: nat :: from <= i ==> !IdPatternAt(s, i, k)
  {
  }

  /** A match at `i` has the whole digit run as its group, so checking that
      one length rules out every other. */
  lemma NoIdMatchAt(s: string, i: nat)
    requires i < |s|
    requires !IdPatternAt(s, i, DigitRun(s, i + 1))
    ensures forall k: nat :: !IdPatternAt(s, i, k)
  {
    forall k: nat | IdPatternAt(s, i, k) ensures false {
      IdPatternMaximal(s, i, k);
    }
  }

  /** `\.(\d+)\.html` matches at `i` with `k` digits and nowhere to the left. */
  ghost predicate LeftmostIdMatch(url: string, i: nat, k: nat) {
    IdPatternAt(url, i, k) && forall j: nat, k': nat :: j < i ==> !IdPatternAt(url, j, k')
  }

  /** `_extract_listing_id_from_url`: the value of the digit group of the
      leftmost `\.(\d+)\.html` match; raises when there is none. */
  function ExtractListingId(url: string): (r: Result<nat, Error>)
    ensures r.Failure? <==> forall i: nat, k: nat :: !IdPatternAt(url, i, k)
    ensures r.Failure? ==> r.error == NoListingId(url)
    ensures forall i: nat, k: nat :: LeftmostIdMatch(url, i, k) ==>
      r == Success(DigitsValue(url[i + 1..i + 1 + k]))
  {
    IdOfNoMatch(url);
    IdOfLeftmostMatch(url);
    IdOfMatch(url, FindIdMatch(url, 0))
  }

  /** The id that the scan's answer `m` gives: its digit group's value, or the
      error when there is no match. */
  function IdOfMatch(url: string, m: Option<nat>): Result<nat, Error>
    requires m.Some? ==> m.value < |url| && IdPatternAt(url, m.value, DigitRun(url, m.value + 1))
  {
    match m
    case None => Failure(NoListingId(url))
    case Some(i) => Success(DigitsValue(url[i + 1..i + 1 + DigitRun(url, i + 1)]))
  }

  lemma IdOfLeftmostMatch(url: string)
    ensures forall i: nat, k: nat :: LeftmostIdMatch(url, i, k) ==>
      IdOfMatch(url, FindIdMatch(url, 0)) == Success(DigitsValue(url[i + 1..i + 1 + k]))
  {
    forall i: nat, k: nat | LeftmostIdMatch(url, i, k)
      ensures IdOfMatch(url, FindIdMatch(url, 0)) == Success(DigitsValue(url[i + 1..i + 1 + k]))
    {
      FindIdMatchAt(url, i, k);
      IdOfFoundMatch(url, i, k);
      assert FindIdMatch(url, 0) == Some(i);
    }
  }

  lemma IdOfFoundMatch(url: string, i: nat, k: nat)
    requires i < |url| && k == DigitRun(url, i + 1) && IdPatternAt(url, i, k)
    ensures IdOfMatch(url, Some(i)) == Success(DigitsValue(url[i + 1..i + 1 + k]))
  {
  }

  lemma IdOfNoMatch(url: string)
    ensures IdOfMatch(url, FindIdMatch(url, 0)).Failure? <==> forall i: nat, k: nat :: !IdPatternAt(url, i, k)
    ensures IdOfMatch(url, FindIdMatch(url, 0)).Failure? ==>
      IdOfMatch(url, FindIdMatch(url, 0)).error == NoListingId(url)
  {
    var m := FindIdMatch(url, 0);
    if m.Some? {
      assert IdPatternAt(url, m.value, DigitRun(url, m.value + 1));
    }
  }

  lemma FindIdMatchAt(url: string, i: nat, k: nat)
    requires LeftmostIdMatch(url, i, k)
    ensures FindIdMatch(url, 0) == Some(i) && k == DigitRun(url, i + 1)
  {
    var m := FindIdMatch(url, 0);
    assert m.Some?;
    var j := m.value;
    assert LeftmostIdMatch(url, j, DigitRun(url, j + 1));
    LeftmostUnique(url, i, k, j, DigitRun(url, j + 1));
    IdPatternMaximal(url, i, k);
  }

  /** Whatever the leftmost match is, its digit group is the id. */
  lemma LeftmostIdMatchDecides(url: string, i: nat, k: nat, digits: string)
    requires LeftmostIdMatch(url, i, k) && url[i + 1..i + 1 + k] == digits
    ensures AllDigits(digits) && ExtractListingId(url) == Success(DigitsValue(digits))
  {
    assert IdPatternAt(url, i, k);
  }

  /** There is only one leftmost match position. */
  lemma LeftmostUnique(url: string, i: nat, k: nat, j: nat, k': nat)
    requires LeftmostIdMatch(url, i, k) && LeftmostIdMatch(url, j, k')
    ensures i == j
  {
  }

  /** The url of a listing page: a prefix, `.`, the id digits, `.html` and a rest. */
  function ListingUrl(prefix: string, digits: string, rest: string): string {
    prefix + "." + digits + HtmlSuffix + rest
  }

  lemma IdPatternAtJoin(prefix: string, digits: string, rest: string)
    requires |digits| >= 1 && AllDigits(digits)
    ensures IdPatternAt(ListingUrl(prefix, digits, rest), |prefix|, |digits|)
    ensures ListingUrl(prefix, digits, rest)[|prefix| + 1..|prefix| + 1 + |digits|] == digits
    ensures ListingUrl(prefix, digits, rest)[..|prefix|] == prefix
  {
    var url := ListingUrl(prefix, digits, rest);
    var i := |prefix|;
    assert url[..i] == prefix;
    assert url[i] == '.';
    assert url[i + 1..i + 1 + |digits|] == digits;
    assert url[i + 1 + |digits|..i + 1 + |digits| + |HtmlSuffix|] == HtmlSuffix;
  }

  /** Every dot of `prefix` is followed, inside `prefix`, by a non-digit, as in
      `https://www.wg-gesucht.de/wg-zimmer-in-Berlin-Mitte`. */
  predicate NoDotDigit(prefix: string) {
    forall j :: 0 <= j < |prefix| && prefix[j] == '.' ==> j + 1 < |prefix| && !IsDigit(prefix[j + 1])
  }

  lemma NoDotDigitConcat(a: string, b: string)
    requires NoDotDigit(a) && NoDotDigit(b)
    ensures NoDotDigit(a + b)
  {
    var ab := a + b;
    forall j | 0 <= j < |ab| && ab[j] == '.' ensures j + 1 < |ab| && !IsDigit(ab[j + 1]) {
      if j < |a| {
        assert ab[j] == a[j];
        assert ab[j + 1] == a[j + 1];
      } else {
        assert ab[j] == b[j - |a|];
        assert ab[j + 1] == b[j + 1 - |a|];
      }
    }
  }

  /** A match after a prefix in which no dot is followed by a digit is the leftmost one. */
  lemma MatchAfterPlainPrefix(url: string, i: nat, k: nat)
    requires IdPatternAt(url, i, k) && NoDotDigit(url[..i])
    ensures LeftmostIdMatch(url, i, k)
  {
    var prefix := url[..i];
    forall j: nat, k': nat | j < i ensures !IdPatternAt(url, j, k') {
      assert url[j] == prefix[j];
      if url[j] == '.' && 1 <= k' && j + 1 + k' <= |url| {
        assert url[j + 1] == prefix[j + 1];
        assert url[j + 1..j + 1 + k'][0] == url[j + 1];
      }
    }
  }

  /** A url made of a prefix without a dot before a digit, `.`, digits and
      `.html` yields the value of the digits. */
  lemma ListingUrlDigits(prefix: string, digits: string, rest: string)
    requires NoDotDigit(prefix)
    requires |digits| >= 1 && AllDigits(digits)
    ensures ExtractListingId(ListingUrl(prefix, digits, rest)) == Success(DigitsValue(digits))
  {
    IdPatternAtJoin(prefix, digits, rest);
    MatchAfterPlainPrefix(ListingUrl(prefix, digits, rest), |prefix|, |digits|);
    LeftmostIdMatchDecides(ListingUrl(prefix, digits, rest), |prefix|, |digits|, digits);
  }

  /** A url made of a prefix in which no dot is followed by a digit, `.`, the
      printed id and `.html` yields that id. */
  lemma ListingUrlId(prefix: string, id: nat, rest: string)
    requires NoDotDigit(prefix)
    ensures ExtractListingId(ListingUrl(prefix, NatToString(id), rest)) == Success(id)
  {
    ListingUrlDigits(prefix, NatToString(id), rest);
    ValueOfNatToString(id);
  }

  /** `https://www.wg-gesucht.de/wohnungen-in-Berlin-Mitte`, in three parts. */
  const ExamplePrefix: string := "https://www" + "." + "wg-gesucht" + "." + "de/wohnungen-in-Berlin-Mitte"

  /** The id of a listing url of the form the site uses. */
  lemma ExampleListingId()
    ensures ExtractListingId(ListingUrl(ExamplePrefix, NatToString(123456), "")) == Success(123456)
  {
    ExamplePrefixPlain();
    ListingUrlId(ExamplePrefix, 123456, "");
  }

  lemma ExamplePrefixPlain()
    ensures NoDotDigit(ExamplePrefix)
  {
    var a, b, c := "https://www", "wg-gesucht", "de/wohnungen-in-Berlin-Mitte";
    DotFree(a);
    DotFree(b);
    DotFree(c);
    NoDotDigitCons(b);
    NoDotDigitCons(c);
    NoDotDigitConcat(a, "." + b);
    NoDotDigitConcat(a + "." + b, "." + c);
    assert a + "." + b + ("." + c) == a + "." + b + "." + c;
  }

  lemma DotFree(a: string)
    requires forall j :: 0 <= j < |a| ==> a[j] != '.'
    ensures NoDotDigit(a)
  {
  }

  lemma NoDotDigitCons(s: string)
    requires NoDotDigit(s) && |s| > 0 && !IsDigit(s[0])
    ensures NoDotDigit("." + s)
  {
    var t := "." + s;
    assert forall j :: 1 <= j < |t| ==> t[j] == s[j - 1];
  }

  /** Ids with leading zeros come back without them, so the page is searched for
      a `data-id` spelled without them. */
  lemma ListingIdDropsLeadingZeros(prefix: string, digits: string)
    requires NoDotDigit(prefix)
    requires AllDigits(digits) && |digits| >= 1
    ensures ExtractListingId(ListingUrl(prefix, "0" + digits, ""))
            == ExtractListingId(ListingUrl(prefix, digits, ""))
  {
    LeadingZeroValue(digits);
    ListingUrlDigits(prefix, "0" + digits, "");
    ListingUrlDigits(prefix, digits, "");
  }

  lemma {:induction false} LeadingZeroValue(digits: string)
    requires AllDigits(digits)
    ensures AllDigits("0" + digits) && DigitsValue("0" + digits) == DigitsValue(digits)
    decreases |digits|
  {
    if |digits| > 0 {
      var t := digits[..|digits| - 1];
      LeadingZeroValue(t);
      assert ("0" + digits)[..|"0" + digits| - 1] == "0" + t;
    } else {
      assert ("0" + digits)[..0] == [];
    }
  }

  /* ---------------- `\b\d+\s?m²\b`: the area in a bold text ---------------- */

  const Unit: string := "m\U{B2}"

  /** The unit `m²` at `p`, followed by a word boundary. */
  predicate UnitAt(t: string, p: nat) {
    OccursAt(t, Unit, p) && (p + 2 == |t| || !IsWordChar(t[p + 2]))
  }

  /** The regex `\b\d+\s?m²\b` matches at `i` with `k` digits. */
  predicate AreaPatternAt(t: string, i: nat, k: nat) {
    && i + k <= |t|
    && 1 <= k
    && (i == 0 || !IsWordChar(t[i - 1]))
    && AllDigits(t[i..i + k])
    && (UnitAt(t, i + k) || (i + k < |t| && IsSpace(t[i + k]) && UnitAt(t, i + k + 1)))
  }

  ghost predicate HasAreaPattern(t: string) {
    exists i: nat, k: nat :: AreaPatternAt(t, i, k)
  }

  lemma AreaPatternMaximal(t: string, i: nat, k: nat)
    requires AreaPatternAt(t, i, k)
    ensures k == DigitRun(t, i)
  {
    assert !IsDigit(t[i + k]) by {
      if UnitAt(t, i + k) {
        assert t[i + k] == Unit[0];
      }
    }
    assert forall p :: i <= p < i + k ==> IsDigit(t[p]) by {
      forall p | i <= p < i + k ensures IsDigit(t[p]) {
        assert t[i..i + k][p - i] == t[p];
      }
    }
  }

  /** Scans for a match of `\b\d+\s?m²\b` starting at `from` or later. */
  function FindArea(t: string, from: nat): (found: bool)
    requires from <= |t|
    ensures found <==> exists i: nat, k: nat :: from <= i && AreaPatternAt(t, i, k)
    decreases |t| - from
  {
    if from == |t| then false
    else if AreaPatternAt(t, from, DigitRun(t, from)) then true
    else
      var found := FindArea(t, from + 1);
      assert forall k: nat :: !AreaPatternAt(t, from, k) by {
        forall k: nat | AreaPatternAt(t, from, k) ensures false {
          AreaPatternMaximal(t, from, k);
        }
      }
      found
  }

  /** The leftmost digit at `from` or later: where `re.search(r"\d+", t)` matches. */
  function FindDigit(t: string, from: nat): (r: Option<nat>)
    requires from <= |t|
    ensures r.Some? ==> from <= r.value < |t| && IsDigit(t[r.value])
    ensures r.Some? ==> forall p :: from <= p < r.value ==> !IsDigit(t[p])
    ensures r.None? ==> forall p :: from <= p < |t| ==> !IsDigit(t[p])
    decreases |t| - from
  {
    if from == |t| then None
    else if IsDigit(t[from]) then Some(from)
    else FindDigit(t, from + 1)
  }

  lemma DigitSlice(t: string, p: nat, k: nat)
    requires p + k <= |t|
    requires forall q :: p <= q < p + k ==> IsDigit(t[q])
    ensures AllDigits(t[p..p + k])
  {
    var u := t[p..p + k];
    assert forall q :: 0 <= q < |u| ==> u[q] == t[p + q];
  }

  /** The value of the run of digits starting at `p`. */
  function RunValue(t: string, p: nat): nat
    requires p <= |t|
  {
    var k := DigitRun(t, p);
    DigitSlice(t, p, k);
    DigitsValue(t[p..p + k])
  }

  /** `p` is the position of the first digit of `t`. */
  predicate FirstDigitAt(t: string, p: nat) {
    p < |t| && IsDigit(t[p]) && forall q :: 0 <= q < p ==> !IsDigit(t[q])
  }

  /** `int(re.search(r"\d+", t).group())`: the value of the first run of digits. */
  function FirstNumber(t: string): (r: Option<nat>)
    ensures r.None? <==> forall p :: 0 <= p < |t| ==> !IsDigit(t[p])
    ensures forall p: nat :: FirstDigitAt(t, p) ==> r == Some(RunValue(t, p))
  {
    match FindDigit(t, 0)
    case None => None
    case Some(p) =>
      assert forall p': nat :: FirstDigitAt(t, p') ==> p' == p;
      Some(RunValue(t, p))
  }

  /** The first number is the run of digits at the first digit. */
  lemma FirstNumberAt(t: string, p: nat)
    requires FirstDigitAt(t, p)
    ensures FirstNumber(t) == Some(RunValue(t, p))
  {
  }

  /** The area one bold text yields: when the text matches `\b\d+\s?m²\b`, the
      first number in the text (which need not be the one before `m²`). */
  function AreaOfText(t: string): (r: Option<nat>)
    ensures r.Some? <==> HasAreaPattern(t)
    ensures r.Some? ==> Some(r.value) == FirstNumber(t)
  {
    if FindArea(t, 0) then
      AreaHasDigit(t);
      FirstNumber(t)
    else None
  }

  lemma AreaHasDigit(t: string)
    requires HasAreaPattern(t)
    ensures exists p :: 0 <= p < |t| && IsDigit(t[p])
  {
    var i: nat, k: nat :| AreaPatternAt(t, i, k);
    assert t[i..i + k][0] == t[i];
  }

  /** With a match anywhere in the text, the area is the first number of the text. */
  lemma AreaOfMatchingText(t: string, i: nat, k: nat)
    requires AreaPatternAt(t, i, k)
    ensures AreaOfText(t) == FirstNumber(t) && FirstNumber(t).Some?
  {
    assert HasAreaPattern(t);
  }

  /** A bold text giving the room count before the area. */
  const RoomsAndArea: string := "2 Zimmer, 35 m\U{B2}"

  lemma RoomsAndAreaMatches()
    ensures AreaPatternAt(RoomsAndArea, 10, 2)
  {
    var t := RoomsAndArea;
    assert |t| == 15 && t[9] == ' ' && t[12] == ' ';
    assert t[10..12] == "35";
    assert UnitAt(t, 13) by { assert t[13..15] == Unit; }
  }

  lemma RoomsAndAreaFirstNumber()
    ensures FirstNumber(RoomsAndArea) == Some(2)
  {
    var t := RoomsAndArea;
    assert |t| == 15 && t[0] == '2';
    FirstNumberAt(t, 0);
    assert DigitRun(t, 0) == 1 by { assert DigitRun(t, 1) == 0; }
    assert t[0..1] == "2";
    assert DigitsValue("2") == 2 by { assert "2"[..0] == ""; }
  }

  /** Only the first number of the text counts, even when it is not the area. */
  lemma AreaTakesFirstNumber()
    ensures AreaOfText(RoomsAndArea) == Some(2)
  {
    RoomsAndAreaMatches();
    AreaOfMatchingText(RoomsAndArea, 10, 2);
    RoomsAndAreaFirstNumber();
  }

  /** A bold text "22 m²" yields 22; one without the unit yields nothing. */
  lemma AreaExamples()
    ensures AreaOfText("22 m\U{B2}") == Some(22)
    ensures AreaOfText("22 qm") == None
  {
    var t := "22 m\U{B2}";
    assert |t| == 5 && t[2] == ' ';
    assert t[0..2] == "22";
    assert UnitAt(t, 3) by { assert t[3..5] == Unit; }
    assert AreaPatternAt(t, 0, 2);
    AreaOfMatchingText(t, 0, 2);
    FirstNumberAt(t, 0);
    assert DigitRun(t, 0) == 2 by { assert DigitRun(t, 2) == 0; }
    assert DigitsValue("22") == 22 by { assert "22"[..1] == "2"; assert "2"[..0] == ""; }
    var u := "22 qm";
    assert forall p :: 0 <= p < |u| ==> u[p] != Unit[1];
    forall p: nat | p + 2 <= |u| ensures !OccursAt(u, Unit, p) {
      assert u[p..p + 2][1] == u[p + 1];
    }
  }

  /** The bold texts under every element whose `data-id` equals `key`, in order. */
  function BoldsUnder(elements: seq<Element>, key: string): (bs: seq<string>)
    ensures forall b :: b in bs <==> exists e :: e in elements && e.dataId == Some(key) && b in e.bolds
  {
    if |elements| == 0 then []
    else
      var e := elements[0];
      var rest := BoldsUnder(elements[1..], key);
      assert forall x :: x in elements <==> x == e || x in elements[1..];
      (if e.dataId == Some(key) then e.bolds else []) + rest
  }

  /** The bolds of one element: all of them, in order, when it carries the key. */
  lemma BoldsUnderOne(e: Element, key: string)
    ensures BoldsUnder([e], key) == if e.dataId == Some(key) then e.bolds else []
  {
    assert [e][1..] == [];
  }

  /** The bolds under a document split in two are those of the first part
      followed by those of the second: document order, duplicates kept. */
  lemma {:induction false} BoldsUnderAppend(a: seq<Element>, b: seq<Element>, key: string)
    ensures BoldsUnder(a + b, key) == BoldsUnder(a, key) + BoldsUnder(b, key)
    decreases |a|
  {
    if |a| > 0 {
      assert (a + b)[0] == a[0];
      assert (a + b)[1..] == a[1..] + b;
      BoldsUnderAppend(a[1..], b, key);
    } else {
      assert a + b == b;
    }
  }

  /** The first present value of `xs`. */
  function FirstSome(xs: seq<Option<nat>>): (r: Option<nat>)
    ensures r.None? <==> forall j :: 0 <= j < |xs| ==> xs[j].None?
    ensures r.Some? ==> exists j :: 0 <= j < |xs| && r == xs[j] && forall j' :: 0 <= j' < j ==> xs[j'].None?
  {
    if |xs| == 0 then None
    else if xs[0].Some? then xs[0]
    else
      var r := FirstSome(xs[1..]);
      assert forall j :: 1 <= j < |xs| ==> xs[j] == xs[1..][j - 1];
      r
  }

  /** The area of the first bold text that has one. */
  function FirstArea(bolds: seq<string>): (r: Option<nat>)
    ensures r.None? <==> forall j :: 0 <= j < |bolds| ==> AreaOfText(bolds[j]).None?
    ensures r.Some? ==>
      exists j :: 0 <= j < |bolds| && r == AreaOfText(bolds[j])
                  && forall j' :: 0 <= j' < j ==> AreaOfText(bolds[j']).None?
  {
    var areas := Areas(bolds);
    AreasAt(bolds);
    FirstSome(areas)
  }

  function Areas(bolds: seq<string>): seq<Option<nat>> {
    seq(|bolds|, j requires 0 <= j < |bolds| => AreaOfText(bolds[j]))
  }

  lemma AreasAt(bolds: seq<string>)
    ensures |Areas(bolds)| == |bolds|
    ensures forall j :: 0 <= j < |bolds| ==> Areas(bolds)[j] == AreaOfText(bolds[j])
  {
  }

  /** `_get_square_meters(soup, listing_id)`: the area of the first bold text,
      under an element whose `data-id` is `str(listing_id)`, that matches the
      area pattern. */
  function SquareMeters(doc: Document, listingId: nat): Option<nat> {
    FirstArea(BoldsUnder(doc.elements, NatToString(listingId)))
  }

  /** The first present value of `xs + ys`: that of `xs`, else that of `ys`. */
  lemma {:induction false} FirstSomeAppend(xs: seq<Option<nat>>, ys: seq<Option<nat>>)
    ensures FirstSome(xs + ys) == if FirstSome(xs).Some? then FirstSome(xs) else FirstSome(ys)
    decreases |xs|
  {
    if |xs| == 0 {
      assert xs + ys == ys;
    } else {
      assert (xs + ys)[0] == xs[0];
      assert (xs + ys)[1..] == xs[1..] + ys;
      if xs[0].None? {
        FirstSomeAppend(xs[1..], ys);
      }
    }
  }

  /** The first area among `a + b`: that of `a`, else that of `b`. */
  lemma FirstAreaAppend(a: seq<string>, b: seq<string>)
    ensures FirstArea(a + b) == if FirstArea(a).Some? then FirstArea(a) else FirstArea(b)
  {
    AreasAppend(a, b);
    FirstSomeAppend(Areas(a), Areas(b));
  }

  lemma AreasAppend(a: seq<string>, b: seq<string>)
    ensures Areas(a + b) == Areas(a) + Areas(b)
  {
    AreasAt(a);
    AreasAt(b);
    AreasAt(a + b);
    forall j | 0 <= j < |a| + |b| ensures Areas(a + b)[j] == (Areas(a) + Areas(b))[j] {
      if j < |a| {
        assert (a + b)[j] == a[j];
      } else {
        assert (a + b)[j] == b[j - |a|];
      }
    }
  }

  /** Bold `k` of element `i` is the first one, in document order, under an
      element carrying `key`, whose text has an area. */
  ghost predicate FirstAreaBold(elements: seq<Element>, key: string, i: int, k: int) {
    && 0 <= i < |elements| && elements[i].dataId == Some(key)
    && 0 <= k < |elements[i].bolds| && AreaOfText(elements[i].bolds[k]).Some?
    && (forall k' :: 0 <= k' < k ==> AreaOfText(elements[i].bolds[k']).None?)
    && (forall i', b :: 0 <= i' < i && elements[i'].dataId == Some(key) && b in elements[i'].bolds
                        ==> AreaOfText(b).None?)
  }

  lemma {:induction false} FirstAreaOfFirstBold(elements: seq<Element>, key: string, i: int, k: int)
    requires FirstAreaBold(elements, key, i, k)
    ensures FirstArea(BoldsUnder(elements, key)) == AreaOfText(elements[i].bolds[k])
    decreases |elements|
  {
    var e := elements[0];
    var own := if e.dataId == Some(key) then e.bolds else [];
    var rest := elements[1..];
    BoldsUnderSplit(elements, key);
    FirstAreaAppend(own, BoldsUnder(rest, key));
    if i == 0 {
      FirstAreaAt(e.bolds, k);
    } else {
      FirstAreaNone(own);
      FirstAreaBoldRest(elements, key, i, k);
      FirstAreaOfFirstBold(rest, key, i - 1, k);
    }
  }

  lemma BoldsUnderSplit(elements: seq<Element>, key: string)
    requires |elements| > 0
    ensures BoldsUnder(elements, key)
            == (if elements[0].dataId == Some(key) then elements[0].bolds else []) + BoldsUnder(elements[1..], key)
  {
  }

  /** A bold with an area and none before it decides the first area. */
  lemma FirstAreaAt(bolds: seq<string>, k: int)
    requires 0 <= k < |bolds| && AreaOfText(bolds[k]).Some?
    requires forall k' :: 0 <= k' < k ==> AreaOfText(bolds[k']).None?
    ensures FirstArea(bolds) == AreaOfText(bolds[k])
  {
    var r := FirstArea(bolds);
    var j :| 0 <= j < |bolds| && r == AreaOfText(bolds[j])
             && forall j' :: 0 <= j' < j ==> AreaOfText(bolds[j']).None?;
    assert j == k;
  }

  lemma FirstAreaNone(bolds: seq<string>)
    requires forall b :: b in bolds ==> AreaOfText(b).None?
    ensures FirstArea(bolds).None?
  {
    forall j | 0 <= j < |bolds| ensures AreaOfText(bolds[j]).None? {
      assert bolds[j] in bolds;
    }
  }

  /** Dropping an element before the first area bold keeps it first. */
  lemma FirstAreaBoldRest(elements: seq<Element>, key: string, i: int, k: int)
    requires FirstAreaBold(elements, key, i, k) && i > 0
    ensures forall b :: b in (if elements[0].dataId == Some(key) then elements[0].bolds else []) ==> AreaOfText(b).None?
    ensures FirstAreaBold(elements[1..], key, i - 1, k)
  {
    var rest := elements[1..];
    forall i', b | 0 <= i' < i - 1 && rest[i'].dataId == Some(key) && b in rest[i'].bolds
      ensures AreaOfText(b).None?
    {
      assert rest[i'] == elements[i' + 1];
    }
    assert rest[i - 1] == elements[i];
  }

  /** The area found for an id is that of the first bold text, in document
      order, under an element carrying that id, whose text has one; there is
      none exactly when no such text has one. */
  lemma SquareMetersSource(doc: Document, listingId: nat)
    ensures forall i, k :: FirstAreaBold(doc.elements, NatToString(listingId), i, k) ==>
      SquareMeters(doc, listingId) == AreaOfText(doc.elements[i].bolds[k])
    ensures SquareMeters(doc, listingId).Some? ==>
      exists e, b :: e in doc.elements && e.dataId == Some(NatToString(listingId))
                     && b in e.bolds && SquareMeters(doc, listingId) == AreaOfText(b)
    ensures SquareMeters(doc, listingId).None? <==>
      forall e, b :: e in doc.elements && e.dataId == Some(NatToString(listingId)) && b in e.bolds
                     ==> AreaOfText(b).None?
  {
    var key := NatToString(listingId);
    var bolds := BoldsUnder(doc.elements, key);
    var r := FirstArea(bolds);
    forall i, k | FirstAreaBold(doc.elements, key, i, k)
      ensures r == AreaOfText(doc.elements[i].bolds[k])
    {
      FirstAreaOfFirstBold(doc.elements, key, i, k);
    }
    if r.Some? {
      var j :| 0 <= j < |bolds| && r == AreaOfText(bolds[j])
               && forall j' :: 0 <= j' < j ==> AreaOfText(bolds[j']).None?;
      assert bolds[j] in bolds;
      var e :| e in doc.elements && e.dataId == Some(key) && bolds[j] in e.bolds;
    } else {
      forall e, b | e in doc.elements && e.dataId == Some(key) && b in e.bolds
        ensures AreaOfText(b).None?
      {
        assert b in bolds;
        var j :| 0 <= j < |bolds| && bolds[j] == b;
      }
    }
  }

  /** Two valid area texts under the same element: the first one decides. */
  lemma FirstBoldWins(doc: Document, listingId: nat, b1: string, b2: string)
    requires doc.elements == [Element(Some(NatToString(listingId)), [b1, b2])]
    requires AreaOfText(b1).Some? && AreaOfText(b2).Some?
    ensures SquareMeters(doc, listingId) == AreaOfText(b1)
  {
    assert FirstAreaBold(doc.elements, NatToString(listingId), 0, 0);
    SquareMetersSource(doc, listingId);
  }

  /** The area `_extract_and_add_square_meters` derives for one listing: none
      without a url, otherwise that of its listing id (raising if it has none). */
  function SquareMetersFor(doc: Document, l: Listing): (r: Result<Option<nat>, Error>)
    ensures l.url.None? ==> r == Success(None)
    ensures l.url.Some? ==>
      match ExtractListingId(l.url.value)
      case Success(id) => r == Success(SquareMeters(doc, id))
      case Failure(e) => r == Failure(e)
  {
    if l.url.None? then Success(None)
    else
      var id :- ExtractListingId(l.url.value);
      Success(SquareMeters(doc, id))
  }

  predicate HasListingId(l: Listing) {
    l.url.None? || ExtractListingId(l.url.value).Success?
  }

  /** `_extract_and_add_square_meters`: each listing wrapped unchanged, in order,
      with its derived area; one url without an id raises for the whole batch. */
  function AddSquareMeters(doc: Document, listings: seq<Listing>): (r: Result<seq<Augmented>, Error>)
    ensures r.Success? <==> forall i :: 0 <= i < |listings| ==> HasListingId(listings[i])
    ensures r.Success? ==>
      && |r.value| == |listings|
      && forall i :: 0 <= i < |listings| ==>
           && r.value[i].listing == listings[i]
           && Success(r.value[i].squareMeters) == SquareMetersFor(doc, listings[i])
    ensures r.Failure? ==>
      exists i :: 0 <= i < |listings| && !HasListingId(listings[i])
                  && (forall j :: 0 <= j < i ==> HasListingId(listings[j]))
                  && r.error == NoListingId(listings[i].url.value)
  {
    if |listings| == 0 then Success([])
    else
      var area :- SquareMetersFor(doc, listings[0]);
      var rest := AddSquareMeters(doc, listings[1..]);
      assert forall i :: 1 <= i < |listings| ==> listings[i] == listings[1..][i - 1];
      if rest.Failure? then
        Failure(rest.error)
      else
        Success([Augmented(listings[0], area)] + rest.value)
  }

  /** An area is attached only to a listing whose url has an id that some
      element of the same page carries as its `data-id`. */
  lemma AreaNeedsAnchor(doc: Document, listings: seq<Listing>, i: nat)
    requires AddSquareMeters(doc, listings).Success?
    requires i < |listings|
    requires AddSquareMeters(doc, listings).value[i].squareMeters.Some?
    ensures listings[i].url.Some?
    ensures ExtractListingId(listings[i].url.value).Success?
    ensures exists e :: e in doc.elements
                        && e.dataId == Some(NatToString(ExtractListingId(listings[i].url.value).value))
  {
    SquareMetersSource(doc, ExtractListingId(listings[i].url.value).value);
  }

  /* ---------------- `extract_listings` ---------------- */

  /** The text that marks the structured-data script. */
  const ProductSentinel: string := "@type\": \"Product\","

  /** Strip, drop the trailing character, rename every `@type` key to `type`. */
  function NormalizeScript(text: string): string {
    ReplaceAll(DropLast(Strip(text)), "@type", "type")
  }

  /** A head script that carries the listing data. */
  predicate IsListingScript(text: string) {
    Contains(text, ProductSentinel)
  }

  /** The index of the first listing script at `from` or later. */
  function FindListingScript(scripts: seq<string>, from: nat): (r: Option<nat>)
    requires from <= |scripts|
    ensures r.Some? ==> from <= r.value < |scripts| && IsListingScript(scripts[r.value])
    ensures r.Some? ==> forall j :: from <= j < r.value ==> !IsListingScript(scripts[j])
    ensures r.None? ==> forall j :: from <= j < |scripts| ==> !IsListingScript(scripts[j])
    decreases |scripts| - from
  {
    if from == |scripts| then None
    else if IsListingScript(scripts[from]) then Some(from)
    else FindListingScript(scripts, from + 1)
  }

  /** `extract_listings`: the normalized text of the first head script that
      contains the sentinel; raises when none does. */
  function ExtractListingsText(scripts: seq<string>): (r: Result<string, Error>)
    ensures r.Failure? <==> forall i :: 0 <= i < |scripts| ==> !IsListingScript(scripts[i])
    ensures r.Failure? ==> r.error == NoListingScript
    ensures r.Success? ==>
      exists i :: 0 <= i < |scripts| && IsListingScript(scripts[i])
                  && (forall j :: 0 <= j < i ==> !IsListingScript(scripts[j]))
                  && r.value == NormalizeScript(scripts[i])
  {
    match FindListingScript(scripts, 0)
    case None => Failure(NoListingScript)
    case Some(i) => Success(NormalizeScript(scripts[i]))
  }

  /** The normalized text is the stripped script minus its last character, with
      the pieces between `@type` occurrences joined by `type`. */
  lemma NormalizeScriptSplits(text: string)
    ensures NormalizeScript(text) == JoinWith(SplitOn(DropLast(Strip(text)), "@type"), "type")
    ensures JoinWith(SplitOn(DropLast(Strip(text)), "@type"), "@type") == DropLast(Strip(text))
  {
    ReplaceIsJoinOfSplit(DropLast(Strip(text)), "@type", "type");
    JoinSplit(DropLast(Strip(text)), "@type");
  }

  /* ---------------- `parse_listings_from_listings_str` ---------------- */

  predicate IsCollectionEntry(e: Entry) {
    e.Object? && e.typeTag == Some("CollectionPage")
  }

  /** The generator `next(d for d in data if d.get("type") == "CollectionPage")`:
      the index of the first collection entry, raising on a non-object met first. */
  function FindCollection(entries: seq<Entry>): (r: Result<Option<nat>, Error>)
    ensures r.Success? && r.value.Some? ==>
      && r.value.value < |entries|
      && IsCollectionEntry(entries[r.value.value])
      && forall j :: 0 <= j < r.value.value ==> entries[j].Object? && !IsCollectionEntry(entries[j])
    ensures r == Success(None) <==>
      forall j :: 0 <= j < |entries| ==> entries[j].Object? && !IsCollectionEntry(entries[j])
    ensures r.Failure? ==>
      r.error == EntryNotAnObject
      && exists i :: 0 <= i < |entries| && entries[i].NonObject?
                     && forall j :: 0 <= j < i ==> entries[j].Object? && !IsCollectionEntry(entries[j])
  {
    if |entries| == 0 then Success(None)
    else if entries[0].NonObject? then Failure(EntryNotAnObject)
    else if IsCollectionEntry(entries[0]) then Success(Some(0))
    else
      var r := FindCollection(entries[1..]);
      assert forall j :: 1 <= j < |entries| ==> entries[j] == entries[1..][j - 1];
      match r
      case Failure(e) => Failure(e)
      case Success(None) => Success(None)
      case Success(Some(i)) => Success(Some(i + 1))
  }

  /** `[li.item for li in collection.mainEntity.itemListElement]`. */
  function Items(page: CollectionPage): seq<Listing> {
    seq(|page.items|, j requires 0 <= j < |page.items| => page.items[j].item)
  }

  /** The listing order is the list order; `position` plays no part. */
  lemma ItemsIgnorePosition(p: CollectionPage, q: CollectionPage)
    requires |p.items| == |q.items|
    requires forall j :: 0 <= j < |p.items| ==> p.items[j].item == q.items[j].item
    ensures Items(p) == Items(q)
    ensures |Items(p)| == |p.items| && forall j :: 0 <= j < |p.items| ==> Items(p)[j] == p.items[j].item
  {
  }

  /** `parse_listings_from_listings_str` on the decoded payload: the items of
      the first collection entry; none when there is no such entry. */
  function ParseListings(d: Decoded): (r: Result<seq<Listing>, Error>)
    ensures d.Malformed? ==> r == Failure(InvalidJson)
    ensures d.NotIterable? ==> r == Failure(NotAList)
    ensures d.Entries? ==>
      match FindCollection(d.entries)
      case Failure(e) => r == Failure(e)
      case Success(None) => r == Success([])
      case Success(Some(i)) =>
        match d.entries[i].asCollectionPage
        case None => r == Failure(InvalidCollectionPage)
        case Some(page) => r == Success(Items(page))
  {
    match d
    case Malformed => Failure(InvalidJson)
    case NotIterable => Failure(NotAList)
    case Entries(entries) =>
      var found :- FindCollection(entries);
      if found.None? then Success([])
      else if entries[found.value].asCollectionPage.None? then Failure(InvalidCollectionPage)
      else Success(Items(entries[found.value].asCollectionPage.value))
  }

  /** The first collection entry, after only non-collection objects, is the one chosen. */
  lemma {:induction false} FindCollectionAt(entries: seq<Entry>, i: nat)
    requires i < |entries| && IsCollectionEntry(entries[i])
    requires forall j :: 0 <= j < i ==> entries[j].Object? && !IsCollectionEntry(entries[j])
    ensures FindCollection(entries) == Success(Some(i))
    decreases i
  {
    if i > 0 {
      var tail := entries[1..];
      assert forall j :: 0 <= j < i - 1 ==> tail[j] == entries[j + 1];
      FindCollectionAt(tail, i - 1);
    }
  }

  /** Entries after the chosen collection entry are never looked at. */
  lemma ParseListingsIgnoresLaterEntries(entries: seq<Entry>, i: nat, later: seq<Entry>)
    requires i < |entries| && IsCollectionEntry(entries[i])
    requires forall j :: 0 <= j < i ==> entries[j].Object? && !IsCollectionEntry(entries[j])
    ensures ParseListings(Entries(entries + later)) == ParseListings(Entries(entries[..i + 1]))
  {
    var all := entries + later;
    var pre := entries[..i + 1];
    assert forall j :: 0 <= j <= i ==> all[j] == entries[j] && pre[j] == entries[j];
    FindCollectionAt(all, i);
    FindCollectionAt(pre, i);
  }

  /* ---------------- `get_last_page_number` ---------------- */

  /** The labels that `int(label.strip())` accepts, converted, in order. */
  function LabelNumbers(labels: seq<string>): (nums: seq<int>)
    ensures forall v :: v in nums <==> exists l :: l in labels && ParseInt(Strip(l)) == Some(v)
  {
    if |labels| == 0 then []
    else
      var rest := LabelNumbers(labels[1..]);
      assert forall l :: l in labels <==> l == labels[0] || l in labels[1..];
      match ParseInt(Strip(labels[0]))
      case None => rest
      case Some(v) => [v] + rest
  }

  /** The largest numeric label minus one, or 0 when no label is numeric. */
  function LastPageOfLabels(labels: seq<string>): int {
    var nums := LabelNumbers(labels);
    if |nums| == 0 then 0 else MaxOf(nums) - 1
  }

  /** `int(label.strip())` succeeds on `l`. */
  predicate IsNumericLabel(l: string) {
    ParseInt(Strip(l)).Some?
  }

  /** The last page is one less than the largest numeric label, and 0 when no
      label is numeric. */
  lemma LastPageOfLabelsSpec(labels: seq<string>)
    ensures (forall l :: l in labels ==> !IsNumericLabel(l)) ==> LastPageOfLabels(labels) == 0
    ensures (exists l :: l in labels && IsNumericLabel(l)) ==>
      && (exists l :: l in labels && ParseInt(Strip(l)) == Some(LastPageOfLabels(labels) + 1))
      && (forall l :: l in labels && IsNumericLabel(l) ==> ParseInt(Strip(l)).value <= LastPageOfLabels(labels) + 1)
  {
    var nums := LabelNumbers(labels);
    if |nums| == 0 {
      forall l | l in labels ensures !IsNumericLabel(l) {
        var v := if IsNumericLabel(l) then ParseInt(Strip(l)).value else 0;
        assert v !in nums;
      }
    } else {
      var m := MaxOf(nums);
      forall l | l in labels && IsNumericLabel(l) ensures ParseInt(Strip(l)).value <= m {
        assert ParseInt(Strip(l)).value in nums;
      }
    }
  }

  /** `get_last_page_number`: raises when the page has no pagination element. */
  function LastPageNumber(doc: Document): (r: Result<int, Error>)
    ensures r.Failure? <==> doc.pagination.None?
    ensures r.Failure? ==> r.error == NoPagination
    ensures r.Success? ==> r.value == LastPageOfLabels(doc.pagination.value.labels)
  {
    match doc.pagination
    case None => Failure(NoPagination)
    case Some(p) => Success(LastPageOfLabels(p.labels))
  }

  /** More labels never lower the last page, once some label is numeric. */
  lemma LastPageMonotone(labels: seq<string>, more: seq<string>)
    requires exists l :: l in labels && IsNumericLabel(l)
    ensures LastPageOfLabels(labels) <= LastPageOfLabels(labels + more)
  {
    LastPageOfLabelsSpec(labels);
    LastPageOfLabelsSpec(labels + more);
    var l :| l in labels && ParseInt(Strip(l)) == Some(LastPageOfLabels(labels) + 1);
    assert l in labels + more;
  }

  /** Without a numeric label the result is 0, which a lone label "0" lowers. */
  lemma LastPageNotMonotoneFromNone()
    ensures LastPageOfLabels([]) == 0
    ensures LastPageOfLabels(["0"]) == -1
  {
    var labels := ["0"];
    SingleDigitLabel("0");
    assert labels[1..] == [];
    assert LabelNumbers(labels) == [0];
    assert MaxOf([0]) == 0;
  }

  /** Pagination labels 1..5 give last page 4. */
  lemma LastPageExample()
    ensures LastPageOfLabels(["1", "2", "3", "4", "5"]) == 4
  {
    var labels := ["1", "2", "3", "4", "5"];
    forall l | l in labels ensures ParseInt(Strip(l)).Some? && ParseInt(Strip(l)).value <= 5 {
      SingleDigitLabel(l);
    }
    SingleDigitLabel("5");
    assert "5" in labels;
    LastPageOfLabelsSpec(labels);
  }

  lemma SingleDigitLabel(l: string)
    requires |l| == 1 && IsDigit(l[0])
    ensures ParseInt(Strip(l)) == Some(DigitValue(l[0]))
  {
    assert !IsSpace(l[0]);
    assert StripStart(l) == l;
    assert StripEnd(l) == l;
    assert AllDigits(l);
    assert DigitsValue(l) == DigitsValue(l[..0]) * 10 + DigitValue(l[0]);
    assert l[..0] == [];
  }

  /* ---------------- one page ---------------- */

  /** The listings of one page with their areas, and the page's last page number. */
  datatype PageData = PageData(listings: seq<Augmented>, lastPage: int)

  /** Lines 292-297 of `scrape_city`, in their order: script, decode, areas, last
      page. `decode` is `json.loads` followed by typing of the top-level entries. */
  function ExtractPage(doc: Document, decode: string -> Decoded): (r: Result<PageData, Error>)
    ensures var text := ExtractListingsText(doc.headScripts);
      text.Failure? ==> r == Failure(NoListingScript)
    ensures var text := ExtractListingsText(doc.headScripts);
      text.Success? && ParseListings(decode(text.value)).Failure? ==>
        r == Failure(ParseListings(decode(text.value)).error)
    ensures var text := ExtractListingsText(doc.headScripts);
      text.Success? && ParseListings(decode(text.value)).Success? ==>
        var listings := ParseListings(decode(text.value)).value;
        && (AddSquareMeters(doc, listings).Failure? ==> r == Failure(AddSquareMeters(doc, listings).error))
        && (AddSquareMeters(doc, listings).Success? && LastPageNumber(doc).Failure? ==>
              r == Failure(LastPageNumber(doc).error))
        && (AddSquareMeters(doc, listings).Success? && LastPageNumber(doc).Success? ==>
              r == Success(PageData(AddSquareMeters(doc, listings).value, LastPageNumber(doc).value)))
    ensures r.Success? <==>
      && ExtractListingsText(doc.headScripts).Success?
      && ParseListings(decode(ExtractListingsText(doc.headScripts).value)).Success?
      && AddSquareMeters(doc, ParseListings(decode(ExtractListingsText(doc.headScripts).value)).value).Success?
      && LastPageNumber(doc).Success?
  {
    var text :- ExtractListingsText(doc.headScripts);
    var listings :- ParseListings(decode(text));
    var augmented :- AddSquareMeters(doc, listings);
    var last :- LastPageNumber(doc);
    Success(PageData(augmented, last))
  }
}
