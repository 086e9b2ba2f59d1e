/** The geocoding job of geocode/main.py: the address text sent to the
    geocoder, the round-robin split of the address list over the worker
    processes, and the per-address loop that stores a location for every
    address the geocoder resolves. The geocoder and the database save are
    oracles. */
module Geocode {
  import opened Wrappers
  import opened Text
  import opened Listing

  /** One row of the address query: the five nullable address columns. */
  datatype Address = Address(
    streetAddress: Option<string>,
    addressLocality: Option<string>,
    addressRegion: Option<string>,
    postalCode: Option<string>,
    addressCountry: Option<string>)

  /** A column as an f-string prints it: a missing value prints as `None`. */
  function Show(v: Option<string>): string {
    if v.None? then "None" else v.value
  }

  /** The printed columns in the order the address text uses. */
  function Fields(a: Address): (fs: seq<string>)
    ensures |fs| == 5
  {
    [Show(a.streetAddress), Show(a.addressLocality), Show(a.addressRegion),
     Show(a.postalCode), Show(a.addressCountry)]
  }

  const Separator: string := ", "

  /** `_format_address`: street, locality, region, postal code and country,
      separated by ", ". */
  function FormatAddress(a: Address): string {
    Show(a.streetAddress) + Separator + Show(a.addressLocality) + Separator
    + Show(a.addressRegion) + Separator + Show(a.postalCode) + Separator
    + Show(a.addressCountry)
  }

  predicate CommaFree(s: string) {
    forall i :: 0 <= i < |s| ==> s[i] != ','
  }

  /** No printed column contains a comma. */
  predicate PlainAddress(a: Address) {
    forall k :: 0 <= k < 5 ==> CommaFree(Fields(a)[k])
  }

  lemma FormatIsJoin(a: Address)
    ensures FormatAddress(a) == JoinWith(Fields(a), Separator)
  {
    var fs, sep := Fields(a), Separator;
    assert fs[1..][1..][1..][1..] == [fs[4]];
    assert fs[1..][1..][1..] == [fs[3], fs[4]];
    assert fs[1..][1..] == [fs[2], fs[3], fs[4]];
    assert fs[1..] == [fs[1], fs[2], fs[3], fs[4]];
    var j3 := fs[3] + sep + fs[4];
    var j2 := fs[2] + sep + j3;
    var j1 := fs[1] + sep + j2;
    assert JoinWith(fs[1..][1..][1..], sep) == j3;
    assert JoinWith(fs[1..][1..], sep) == j2;
    assert JoinWith(fs[1..], sep) == j1;
    assert JoinWith(fs, sep) == fs[0] + sep + j1;
  }

  /** Splitting the address text at ", " gives back the five columns in order,
      when none of them contains a comma. */
  lemma FormatAddressSplits(a: Address)
    requires PlainAddress(a)
    ensures SplitOn(FormatAddress(a), Separator) == Fields(a)
  {
    FormatIsJoin(a);
    forall k, i | 0 <= k < |Fields(a)| && 0 <= i < |Fields(a)[k]| ensures Fields(a)[k][i] != Separator[0] {
      assert CommaFree(Fields(a)[k]);
    }
    SplitJoin(Fields(a), Separator);
  }

  /** Addresses without commas format alike exactly when they print alike. */
  lemma FormatAddressInjective(a: Address, b: Address)
    requires PlainAddress(a) && PlainAddress(b)
    ensures FormatAddress(a) == FormatAddress(b) <==> Fields(a) == Fields(b)
  {
    if FormatAddress(a) == FormatAddress(b) {
      FormatAddressSplits(a);
      FormatAddressSplits(b);
    } else {
      FormatIsJoin(a);
      FormatIsJoin(b);
    }
  }

  /** A missing street and a street literally named "None" give the same text. */
  lemma MissingLooksLikeNone(a: Address)
    ensures FormatAddress(a.(streetAddress := None)) == FormatAddress(a.(streetAddress := Some("None")))
  {
  }

  /* ---------------- one address ---------------- */

  /** A `RealEstateLocation`: the address columns and the coordinates. */
  datatype Location = Location(
    streetAddress: Option<string>,
    addressLocality: Option<string>,
    addressRegion: Option<string>,
    postalCode: Option<string>,
    addressCountry: Option<string>,
    latitude: Float,
    longitude: Float)

  /** One geocoder result: its `geometry.location` coordinates, or a result
      missing one of those keys. */
  datatype Hit = NoCoordinates | Coordinates(lat: Float, lng: Float)

  /** What `gmaps_client.geocode` gives: it raised, or the list of results. */
  datatype Reply = ClientError | Results(hits: seq<Hit>)

  /** What happened to one address: its location was saved, the geocoder
      found nothing, or an exception was caught and logged. */
  datatype AddressOutcome = Saved(location: Location) | NotFound | Failed

  function LocationAt(a: Address, lat: Float, lng: Float): Location {
    Location(a.streetAddress, a.addressLocality, a.addressRegion, a.postalCode, a.addressCountry, lat, lng)
  }

  /** The location of `a` the first result gives, when there is one with coordinates. */
  predicate Resolves(reply: Reply) {
    reply.Results? && |reply.hits| > 0 && reply.hits[0].Coordinates?
  }

  /** The body of the loop in `geocode_locations` for one address. */
  function GeocodeOne(a: Address, geocode: string -> Reply, save: Location -> bool): AddressOutcome {
    match geocode(FormatAddress(a))
    case ClientError => Failed
    case Results(hits) =>
      if |hits| == 0 then NotFound
      else if hits[0].NoCoordinates? then Failed
      else
        var location := LocationAt(a, hits[0].lat, hits[0].lng);
        if save(location) then Saved(location) else Failed
  }

  /** A location is saved exactly when the first result has coordinates and the
      save succeeds; it carries the address columns unchanged and the first
      result's coordinates. Nothing is saved when there are no results. */
  lemma GeocodeOneSpec(a: Address, geocode: string -> Reply, save: Location -> bool)
    ensures var o := GeocodeOne(a, geocode, save);
      var reply := geocode(FormatAddress(a));
      && (o.Saved? <==> Resolves(reply) && save(LocationAt(a, reply.hits[0].lat, reply.hits[0].lng)))
      && (o.Saved? ==>
            && o.location.streetAddress == a.streetAddress
            && o.location.addressLocality == a.addressLocality
            && o.location.addressRegion == a.addressRegion
            && o.location.postalCode == a.postalCode
            && o.location.addressCountry == a.addressCountry
            && o.location.latitude == reply.hits[0].lat
            && o.location.longitude == reply.hits[0].lng)
      && (o.NotFound? <==> reply == Results([]))
  {
  }

  /** The outcome of every address, in order. */
  function Outcomes(addresses: seq<Address>, geocode: string -> Reply, save: Location -> bool): (os: seq<AddressOutcome>)
    ensures |os| == |addresses|
    ensures forall i :: 0 <= i < |addresses| ==> os[i] == GeocodeOne(addresses[i], geocode, save)
  {
    seq(|addresses|, i requires 0 <= i < |addresses| => GeocodeOne(addresses[i], geocode, save))
  }

  /** The saved locations, in order. */
  function SavedOf(os: seq<AddressOutcome>): (ls: seq<Location>)
    ensures |ls| <= |os|
    decreases |os|
  {
    if |os| == 0 then []
    else (if os[0].Saved? then [os[0].location] else []) + SavedOf(os[1..])
  }

  lemma {:induction false} SavedOfAppend(os: seq<AddressOutcome>, ps: seq<AddressOutcome>)
    ensures SavedOf(os + ps) == SavedOf(os) + SavedOf(ps)
    decreases |os|
  {
    if |os| > 0 {
      assert (os + ps)[1..] == os[1..] + ps;
      SavedOfAppend(os[1..], ps);
    } else {
      assert os + ps == ps;
    }
  }

  /** A location is saved exactly when some address's outcome saved it. */
  lemma {:induction false} SavedComeFromAddresses(os: seq<AddressOutcome>)
    ensures forall l :: l in SavedOf(os) <==> Saved(l) in os
    decreases |os|
  {
    if |os| > 0 {
      SavedComeFromAddresses(os[1..]);
      assert forall o :: o in os <==> o == os[0] || o in os[1..];
    }
  }

  /** `geocode_locations` as the loop the program runs: an exception for one
      address is caught and the loop goes on with the next. */
  method GeocodeLocations(addresses: seq<Address>, geocode: string -> Reply, save: Location -> bool)
    returns (saved: seq<Location>, outcomes: seq<AddressOutcome>)
    ensures outcomes == Outcomes(addresses, geocode, save)
    ensures saved == SavedOf(outcomes)
  {
    saved := [];
    outcomes := [];
    var i := 0;
    while i < |addresses|
      invariant 0 <= i <= |addresses|
      invariant outcomes == Outcomes(addresses[..i], geocode, save)
      invariant saved == SavedOf(outcomes)
    {
      var o := GeocodeOne(addresses[i], geocode, save);
      SavedOfAppend(outcomes, [o]);
      if o.Saved? {
        saved := saved + [o.location];
      }
      outcomes := outcomes + [o];
      assert addresses[..i + 1] == addresses[..i] + [addresses[i]];
      i := i + 1;
    }
    assert addresses[..i] == addresses;
  }

  /** The outcome of an address does not depend on the addresses around it:
      running two lists one after the other is running their concatenation. */
  lemma OutcomesAppend(xs: seq<Address>, ys: seq<Address>, geocode: string -> Reply, save: Location -> bool)
    ensures Outcomes(xs + ys, geocode, save) == Outcomes(xs, geocode, save) + Outcomes(ys, geocode, save)
  {
    var all := xs + ys;
    assert forall i :: |xs| <= i < |all| ==> all[i] == ys[i - |xs|];
  }

  /** The locations saved for a list of addresses. */
  function SavedFor(xs: seq<Address>, geocode: string -> Reply, save: Location -> bool): seq<Location> {
    SavedOf(Outcomes(xs, geocode, save))
  }

  lemma SavedForAppend(xs: seq<Address>, ys: seq<Address>, geocode: string -> Reply, save: Location -> bool)
    ensures SavedFor(xs + ys, geocode, save) == SavedFor(xs, geocode, save) + SavedFor(ys, geocode, save)
  {
    OutcomesAppend(xs, ys, geocode, save);
    SavedOfAppend(Outcomes(xs, geocode, save), Outcomes(ys, geocode, save));
  }

  /** Reordering the addresses reorders the saved locations and nothing else. */
  lemma {:induction false} SavedForPermutation(xs: seq<Address>, ys: seq<Address>, geocode: string -> Reply, save: Location -> bool)
    requires multiset(xs) == multiset(ys)
    ensures multiset(SavedFor(xs, geocode, save)) == multiset(SavedFor(ys, geocode, save))
    decreases |xs|
  {
    if |xs| > 0 {
      var x := xs[0];
      assert x in multiset(ys);
      var k :| 0 <= k < |ys| && ys[k] == x;
      var rest := ys[..k] + ys[k + 1..];
      assert ys == ys[..k] + [x] + ys[k + 1..];
      assert xs == [x] + xs[1..];
      assert multiset(ys) == multiset(ys[..k]) + multiset{x} + multiset(ys[k + 1..]);
      assert multiset(xs) == multiset{x} + multiset(xs[1..]);
      assert multiset(rest) == multiset(ys[..k]) + multiset(ys[k + 1..]);
      assert multiset(rest) == multiset(ys) - multiset{x};
      assert multiset(xs[1..]) == multiset(xs) - multiset{x};
      SavedForPermutation(xs[1..], rest, geocode, save);
      SavedForAppend([x], xs[1..], geocode, save);
      SavedForAppend(ys[..k] + [x], ys[k + 1..], geocode, save);
      SavedForAppend(ys[..k], [x], geocode, save);
      SavedForAppend(ys[..k], ys[k + 1..], geocode, save);
    } else {
      assert ys == [];
    }
  }

  /* ---------------- the split over the worker processes ---------------- */

  /** `n_processes`. */
  const Processes: nat := 8

  /** `xs[i::n]` for `i < n`: the elements at positions `i`, `i + n`, `i + 2n`, ... */
  function Stride<T>(xs: seq<T>, i: nat, n: nat): seq<T>
    requires i < n
    decreases |xs|
  {
    if |xs| <= i then []
    else if |xs| <= n then [xs[i]]
    else [xs[i]] + Stride(xs[n..], i, n)
  }

  lemma MulStep(a: int, n: int)
    ensures a * n + n == (a + 1) * n
  {
  }

  /** `xs[i::n]` has one element for each position `i + j * n` inside the list. */
  lemma {:induction false} StrideLength<T>(xs: seq<T>, i: nat, n: nat)
    requires i < n
    ensures var m := |Stride(xs, i, n)|;
      && (m == 0 <==> |xs| <= i)
      && (m > 0 ==> i + (m - 1) * n < |xs| <= i + m * n)
    decreases |xs|
  {
    if n < |xs| {
      var m := |Stride(xs[n..], i, n)|;
      StrideLength(xs[n..], i, n);
      MulStep(m, n);
      MulStep(m - 1, n);
    }
  }

  /** `xs[i::n]` holds exactly the elements at positions `i + j * n`, in order. */
  lemma {:induction false} StrideIndex<T>(xs: seq<T>, i: nat, n: nat)
    requires i < n
    ensures var r := Stride(xs, i, n);
      forall j :: 0 <= j < |r| ==> i + j * n < |xs| && r[j] == xs[i + j * n]
    decreases |xs|
  {
    var r := Stride(xs, i, n);
    StrideLength(xs, i, n);
    if n < |xs| {
      var rest := Stride(xs[n..], i, n);
      StrideIndex(xs[n..], i, n);
      assert r == [xs[i]] + rest;
      forall j | 1 <= j < |r| ensures i + j * n < |xs| && r[j] == xs[i + j * n] {
        MulStep(j - 1, n);
        var p := i + (j - 1) * n;
        assert p < |xs[n..]|;
        assert r[j] == rest[j - 1] == xs[n..][p];
      }
    }
  }

  /** `[addresses[i::n] for i in range(n)]`. */
  function Chunks<T>(xs: seq<T>, n: nat): (cs: seq<seq<T>>)
    ensures |cs| == n
    ensures forall i :: 0 <= i < n ==> cs[i] == Stride(xs, i, n)
  {
    seq(n, i requires 0 <= i < n => Stride(xs, i, n))
  }

  lemma MulLess(a: int, b: int, n: int)
    requires n > 0 && a * n < b * n
    ensures a < b
  {
    assert (b - a) * n == b * n - a * n;
  }

  /** Position `k` of the list lands in chunk `k % n`, at position `k / n`. */
  lemma ChunkOf<T>(xs: seq<T>, n: nat, k: nat)
    requires n > 0 && k < |xs|
    ensures k / n < |Chunks(xs, n)[k % n]| && Chunks(xs, n)[k % n][k / n] == xs[k]
  {
    var i, j := k % n, k / n;
    var r := Stride(xs, i, n);
    assert Chunks(xs, n)[i] == r;
    DivModSplit(k, n);
    StrideReaches(xs, i, n, j);
    StrideIndex(xs, i, n);
    assert r[j] == xs[i + j * n];
  }

  lemma DivModSplit(k: nat, n: nat)
    requires n > 0
    ensures k == k % n + (k / n) * n
  {
  }

  /** Position `i + j * n` of the list, when it exists, is in chunk `i`. */
  lemma StrideReaches<T>(xs: seq<T>, i: nat, n: nat, j: nat)
    requires i < n && i + j * n < |xs|
    ensures j < |Stride(xs, i, n)|
  {
    var m := |Stride(xs, i, n)|;
    StrideLength(xs, i, n);
    assert j * n < m * n;
    MulLess(j, m, n);
  }

  lemma MulMono(a: int, b: int, n: int)
    requires a <= b && n >= 0
    ensures a * n <= b * n
  {
    assert b * n - a * n == (b - a) * n;
  }

  /** Chunk `i` holds only positions congruent to `i` modulo `n`. */
  lemma ChunkPositions<T>(xs: seq<T>, n: nat, i: nat, j: nat)
    requires i < n && j < |Chunks(xs, n)[i]|
    ensures i + j * n < |xs| && (i + j * n) % n == i && Chunks(xs, n)[i][j] == xs[i + j * n]
  {
    var m := |Stride(xs, i, n)|;
    StrideLength(xs, i, n);
    StrideIndex(xs, i, n);
    ModOfMultiple(i, j, n);
  }

  lemma ModOfMultiple(i: nat, j: nat, n: nat)
    requires i < n
    ensures (i + j * n) % n == i
  {
    var k := i + j * n;
    var d := j - k / n;
    assert k == (k / n) * n + k % n;
    assert d * n == k % n - i by {
      assert d * n == j * n - (k / n) * n;
    }
    MulLess(d, 1, n);
    MulLess(-1, d, n);
  }

  /** Chunks further right are never longer, and never shorter by more than one. */
  lemma {:induction false} ChunkSizes<T>(xs: seq<T>, n: nat, i: nat, k: nat)
    requires i < k < n
    ensures |Stride(xs, k, n)| <= |Stride(xs, i, n)| <= |Stride(xs, k, n)| + 1
    decreases |xs|
  {
    if n < |xs| {
      ChunkSizes(xs[n..], n, i, k);
    }
  }

  /** The chunk sizes of `n` workers differ by at most one. */
  lemma ChunkSizesBalanced<T>(xs: seq<T>, n: nat, i: nat, k: nat)
    requires i < n && k < n
    ensures -1 <= |Chunks(xs, n)[i]| - |Chunks(xs, n)[k]| <= 1
  {
    if i < k {
      ChunkSizes(xs, n, i, k);
    } else if k < i {
      ChunkSizes(xs, n, k, i);
    }
  }

  /** `cs[0] + cs[1] + ...`. */
  function Flatten<T>(cs: seq<seq<T>>): seq<T>
    decreases |cs|
  {
    if |cs| == 0 then [] else cs[0] + Flatten(cs[1..])
  }

  lemma {:induction false} FlattenHeads<T>(cs: seq<seq<T>>, ys: seq<T>, ds: seq<seq<T>>)
    requires |cs| == |ys| == |ds|
    requires forall i :: 0 <= i < |cs| ==> cs[i] == [ys[i]] + ds[i]
    ensures multiset(Flatten(cs)) == multiset(ys) + multiset(Flatten(ds))
    decreases |cs|
  {
    if |cs| > 0 {
      FlattenHeads(cs[1..], ys[1..], ds[1..]);
      assert ys == [ys[0]] + ys[1..];
    }
  }

  lemma {:induction false} FlattenSingles<T>(cs: seq<seq<T>>, ys: seq<T>)
    requires |ys| <= |cs|
    requires forall i :: 0 <= i < |cs| ==> cs[i] == (if i < |ys| then [ys[i]] else [])
    ensures multiset(Flatten(cs)) == multiset(ys)
    decreases |cs|
  {
    if |cs| > 0 {
      var rest := if |ys| > 0 then ys[1..] else [];
      FlattenSingles(cs[1..], rest);
      if |ys| > 0 {
        assert ys == [ys[0]] + ys[1..];
      }
    }
  }

  /** The chunks partition the list: together they hold every address exactly
      as often as the list does. */
  lemma {:induction false} ChunksPartition<T>(xs: seq<T>, n: nat)
    requires n > 0
    ensures multiset(Flatten(Chunks(xs, n))) == multiset(xs)
    decreases |xs|
  {
    if |xs| <= n {
      ShortChunks(xs, n);
      FlattenSingles(Chunks(xs, n), xs);
    } else {
      LongChunks(xs, n);
      FlattenHeads(Chunks(xs, n), xs[..n], Chunks(xs[n..], n));
      ChunksPartition(xs[n..], n);
      assert xs == xs[..n] + xs[n..];
    }
  }

  /** With at most `n` addresses, every chunk holds at most its own address. */
  lemma ShortChunks<T>(xs: seq<T>, n: nat)
    requires |xs| <= n
    ensures forall i :: 0 <= i < n ==> Chunks(xs, n)[i] == (if i < |xs| then [xs[i]] else [])
  {
  }

  /** With more than `n` addresses, chunk `i` is address `i` followed by chunk
      `i` of the addresses after the first `n`. */
  lemma LongChunks<T>(xs: seq<T>, n: nat)
    requires 0 < n < |xs|
    ensures forall i :: 0 <= i < n ==> Chunks(xs, n)[i] == [xs[..n][i]] + Chunks(xs[n..], n)[i]
  {
  }

  /** The pool run: every worker runs `geocode_locations` on its chunk; the
      locations saved by all workers together. */
  function PoolSaved(xs: seq<Address>, n: nat, geocode: string -> Reply, save: Location -> bool): seq<Location> {
    var cs := Chunks(xs, n);
    Flatten(seq(n, i requires 0 <= i < n => SavedFor(cs[i], geocode, save)))
  }

  lemma {:induction false} SavedForFlatten(cs: seq<seq<Address>>, geocode: string -> Reply, save: Location -> bool)
    ensures SavedFor(Flatten(cs), geocode, save)
            == Flatten(seq(|cs|, i requires 0 <= i < |cs| => SavedFor(cs[i], geocode, save)))
    decreases |cs|
  {
    var parts := seq(|cs|, i requires 0 <= i < |cs| => SavedFor(cs[i], geocode, save));
    if |cs| > 0 {
      SavedForFlatten(cs[1..], geocode, save);
      SavedForAppend(cs[0], Flatten(cs[1..]), geocode, save);
      assert parts[1..] == seq(|cs[1..]|, i requires 0 <= i < |cs[1..]| => SavedFor(cs[1..][i], geocode, save));
    } else {
      assert SavedFor([], geocode, save) == [];
    }
  }

  /** The eight workers together save the same locations as one sequential run
      over the whole list, up to order. */
  lemma PoolSavesSameLocations(xs: seq<Address>, geocode: string -> Reply, save: Location -> bool)
    ensures multiset(PoolSaved(xs, Processes, geocode, save)) == multiset(SavedFor(xs, geocode, save))
  {
    var cs := Chunks(xs, Processes);
    ChunksPartition(xs, Processes);
    SavedForFlatten(cs, geocode, save);
    SavedForPermutation(Flatten(cs), xs, geocode, save);
  }
}
