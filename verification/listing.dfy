/** The scraped listing records (the pydantic models of scraper/main.py) and the
    flat database row `bulk_insert_listings` builds from each of them. */
module Listing {
  import opened Wrappers

  /** A JSON number kept as an opaque token (prices, coordinates). */
  datatype Float = Float(token: string)

  datatype PostalAddress = PostalAddress(
    streetAddress: Option<string>,
    addressLocality: Option<string>,
    addressRegion: Option<string>,
    postalCode: Option<string>,
    addressCountry: Option<string>)

  datatype OfferDetails = OfferDetails(
    offerType: Option<string>,
    price: Option<Float>,
    priceCurrency: Option<string>,
    availability: Option<string>)

  datatype Provider = Provider(name: Option<string>)

  datatype MainEntity = MainEntity(address: Option<PostalAddress>)

  /** One `RealEstateListingScraped`; urls are kept as the text they were given as. */
  datatype Listing = Listing(
    name: Option<string>,
    url: Option<string>,
    description: Option<string>,
    datePosted: Option<string>,
    offers: OfferDetails,
    provider: Option<Provider>,
    mainEntity: Option<MainEntity>,
    image: Option<string>)

  /** `RealEstateListingScrapedWithAdditions`: a listing and its derived area. */
  datatype Augmented = Augmented(listing: Listing, squareMeters: Option<nat>)

  /** One `RealEstateListing` row, without the insert timestamp. */
  datatype Row = Row(
    listedOnPage: int,
    name: Option<string>,
    url: Option<string>,
    description: Option<string>,
    datePosted: Option<string>,
    image: Option<string>,
    offerType: Option<string>,
    price: Option<Float>,
    squareMeters: Option<nat>,
    priceCurrency: Option<string>,
    availability: Option<string>,
    providerName: Option<string>,
    streetAddress: Option<string>,
    addressLocality: Option<string>,
    addressRegion: Option<string>,
    postalCode: Option<string>,
    addressCountry: Option<string>)

  /** The address reached through `mainEntity.address`, if both are present. */
  function AddressOf(l: Listing): Option<PostalAddress> {
    if l.mainEntity.Some? then l.mainEntity.value.address else None
  }

  function ProviderName(l: Listing): Option<string> {
    if l.provider.Some? then l.provider.value.name else None
  }

  /** The address with every field absent. */
  const NoAddress: PostalAddress := PostalAddress(None, None, None, None, None)

  /** The row `bulk_insert_listings` builds for one listing scraped from `page`. */
  function ToRow(a: Augmented, page: int): Row {
    var l := a.listing;
    var address := if AddressOf(l).Some? then AddressOf(l).value else NoAddress;
    Row(
      page,
      l.name, l.url, l.description, l.datePosted, l.image,
      l.offers.offerType, l.offers.price, a.squareMeters,
      l.offers.priceCurrency, l.offers.availability,
      ProviderName(l),
      address.streetAddress, address.addressLocality, address.addressRegion,
      address.postalCode, address.addressCountry)
  }

  /** The rows of one batch insert: one per listing, in order, all tagged with `page`. */
  function ToRows(batch: seq<Augmented>, page: int): (rows: seq<Row>)
    ensures |rows| == |batch|
    ensures forall i :: 0 <= i < |rows| ==> rows[i].listedOnPage == page && rows[i] == ToRow(batch[i], page)
  {
    seq(|batch|, i requires 0 <= i < |batch| => ToRow(batch[i], page))
  }

  predicate NoAddressField(a: PostalAddress) {
    a.streetAddress.None? && a.addressLocality.None? && a.addressRegion.None?
    && a.postalCode.None? && a.addressCountry.None?
  }

  /** The listing with every nesting the row cannot record collapsed to `None`:
      a provider without a name, a main entity without an address, and an
      address without any field. */
  function Canonical(a: Augmented): Augmented {
    var l := a.listing;
    var address := AddressOf(l);
    var provider := if ProviderName(l).Some? then l.provider else None;
    var entity := if address.Some? && !NoAddressField(address.value) then l.mainEntity else None;
    Augmented(l.(provider := provider, mainEntity := entity), a.squareMeters)
  }

  /** Rebuilds the canonical listing a row was made from. */
  function FromRow(r: Row): Augmented {
    var address := PostalAddress(r.streetAddress, r.addressLocality, r.addressRegion, r.postalCode, r.addressCountry);
    Augmented(
      Listing(
        r.name, r.url, r.description, r.datePosted,
        OfferDetails(r.offerType, r.price, r.priceCurrency, r.availability),
        if r.providerName.Some? then Some(Provider(r.providerName)) else None,
        if NoAddressField(address) then None else Some(MainEntity(Some(address))),
        r.image),
      r.squareMeters)
  }

  /** A row records exactly the canonical form of its listing. */
  lemma FromRowToRow(a: Augmented, page: int)
    ensures FromRow(ToRow(a, page)) == Canonical(a)
  {
  }

  /** Every row is the row of the listing rebuilt from it. */
  lemma ToRowFromRow(r: Row)
    ensures ToRow(FromRow(r), r.listedOnPage) == r
  {
  }

  /** Two listings of one page give the same row exactly when their canonical forms agree. */
  lemma RowsAgreeIffCanonicalAgree(a: Augmented, b: Augmented, page: int)
    ensures ToRow(a, page) == ToRow(b, page) <==> Canonical(a) == Canonical(b)
  {
    FromRowToRow(a, page);
    FromRowToRow(b, page);
    if Canonical(a) == Canonical(b) {
      assert ToRow(a, page) == ToRow(Canonical(a), page);
      assert ToRow(b, page) == ToRow(Canonical(b), page);
    }
  }
}
