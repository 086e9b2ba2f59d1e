/** The crawled cities, their site ids (`city_to_id`) and the search-page url
    template (`get_wg_gesucht_url`). */
module Cities {
  import opened Wrappers
  import opened Numbers

  datatype City =
    | Duesseldorf | Koeln | Berlin | Muenchen | FrankfurtAmMain
    | Hamburg | Stuttgart | Leipzig | Dortmund | Bremen

  /** The spelling the site uses in its urls. */
  function Name(c: City): string {
    match c
    case Duesseldorf => "Duesseldorf"
    case Koeln => "Koeln"
    case Berlin => "Berlin"
    case Muenchen => "Muenchen"
    case FrankfurtAmMain => "Frankfurt-am-Main"
    case Hamburg => "Hamburg"
    case Stuttgart => "Stuttgart"
    case Leipzig => "Leipzig"
    case Dortmund => "Dortmund"
    case Bremen => "Bremen"
  }

  /** `city_to_id[city]`. */
  function SiteId(c: City): nat {
    match c
    case Duesseldorf => 30
    case Koeln => 73
    case Berlin => 8
    case Muenchen => 90
    case FrankfurtAmMain => 41
    case Hamburg => 55
    case Stuttgart => 124
    case Leipzig => 77
    case Dortmund => 26
    case Bremen => 17
  }

  /** `list(city_to_id.keys())`: the default city list, in the dictionary's order. */
  const AllCities: seq<City> :=
    [Duesseldorf, Koeln, Berlin, Muenchen, FrankfurtAmMain, Hamburg, Stuttgart, Leipzig, Dortmund, Bremen]

  /** The inverse of `city_to_id`. */
  function CityWithId(id: int): (r: Option<City>)
    ensures r.Some? ==> SiteId(r.value) == id
    ensures r.None? ==> forall c: City :: SiteId(c) != id
  {
    if id == 30 then Some(Duesseldorf)
    else if id == 73 then Some(Koeln)
    else if id == 8 then Some(Berlin)
    else if id == 90 then Some(Muenchen)
    else if id == 41 then Some(FrankfurtAmMain)
    else if id == 55 then Some(Hamburg)
    else if id == 124 then Some(Stuttgart)
    else if id == 77 then Some(Leipzig)
    else if id == 26 then Some(Dortmund)
    else if id == 17 then Some(Bremen)
    else None
  }

  /** Every city has its own id, and the default list holds every city exactly once. */
  lemma CityTable(c: City)
    ensures CityWithId(SiteId(c)) == Some(c)
    ensures c in AllCities
    ensures forall i, j :: 0 <= i < j < |AllCities| ==> AllCities[i] != AllCities[j]
  {
  }

  const UrlBase: string := "https://www.wg-gesucht.de/wg-zimmer-und-1-zimmer-wohnungen-und-wohnungen-und-haeuser-in-"

  /** The template text between the site id and the page number. */
  const UrlCategories: string := ".0+1+2+3.1."

  /** The query string that follows the page number, with `{city_id}` filled in. */
  function UrlQuery(c: City): string {
    ".html?offer_filter=1&city_id=" + NatToString(SiteId(c))
    + "&sort_order=0&noDeact=1&categories%5B%5D=0&categories%5B%5D=1"
    + "&categories%5B%5D=2&categories%5B%5D=3&pagination=4&pu="
  }

  /** The template text between the city name and the page number. */
  function UrlHead(c: City): string {
    "." + NatToString(SiteId(c)) + UrlCategories
  }

  /** The part of a search url after the city name. */
  function UrlTail(c: City, page: int): string {
    UrlHead(c) + (IntToString(page) + UrlQuery(c))
  }

  /** `get_wg_gesucht_url(city, page)`: the template with `{city}`, `{city_id}`
      (twice) and `{page}` filled in. */
  function SearchUrl(c: City, page: int): string {
    UrlBase + (Name(c) + UrlTail(c, page))
  }

  /** The first two letters of a city's name tell the cities apart. */
  lemma NamesDistinguish(c1: City, c2: City)
    ensures |Name(c1)| >= 2 && |Name(c2)| >= 2
    ensures c1 == c2 <==> Name(c1)[0] == Name(c2)[0] && Name(c1)[1] == Name(c2)[1]
  {
  }

  lemma FirstTwo(a: string, b: string)
    requires |a| >= 2
    ensures (a + b)[0] == a[0] && (a + b)[1] == a[1]
  {
  }

  lemma CancelPrefix(p: string, a: string, b: string)
    requires p + a == p + b
    ensures a == b
  {
    assert a == (p + a)[|p|..];
    assert b == (p + b)[|p|..];
  }

  lemma CancelSuffix(a: string, b: string, q: string)
    requires a + q == b + q
    ensures a == b
  {
    assert a == (a + q)[..|a|];
    assert b == (b + q)[..|b|];
  }

  lemma SameUrlSameCity(c1: City, p1: int, c2: City, p2: int)
    requires Name(c1) + UrlTail(c1, p1) == Name(c2) + UrlTail(c2, p2)
    ensures c1 == c2
  {
    NamesDistinguish(c1, c2);
    FirstTwo(Name(c1), UrlTail(c1, p1));
    FirstTwo(Name(c2), UrlTail(c2, p2));
  }

  /** Distinct (city, page) pairs have distinct search urls, so a fetch keyed by
      url is a fetch keyed by city and page. */
  lemma SearchUrlInjective(c1: City, p1: int, c2: City, p2: int)
    requires SearchUrl(c1, p1) == SearchUrl(c2, p2)
    ensures c1 == c2 && p1 == p2
  {
    CancelPrefix(UrlBase, Name(c1) + UrlTail(c1, p1), Name(c2) + UrlTail(c2, p2));
    SameUrlSameCity(c1, p1, c2, p2);
    CancelPrefix(Name(c1), UrlTail(c1, p1), UrlTail(c1, p2));
    CancelPrefix(UrlHead(c1), IntToString(p1) + UrlQuery(c1), IntToString(p2) + UrlQuery(c1));
    CancelSuffix(IntToString(p1), IntToString(p2), UrlQuery(c1));
    IntToStringInjective(p1, p2);
  }
}
