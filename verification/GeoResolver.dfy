/** Resolving an address: both tables are looked up, and a found location is moved off the
    peers already placed there. */
module GeoResolvers {
  import opened Words
  import opened GeoTables
  import opened FloatKey
  import opened LocationCaches

  datatype Location = Location(
    countryCode: Option<string>, countryName: Option<string>,
    regionName: Option<string>, cityName: Option<string>,
    latitude: u64, longitude: u64)

  datatype Asn = Asn(mask: Option<string>, asn: Option<string>, name: Option<string>)

  datatype AddressInfo = AddressInfo(
    address: u32, location: Option<Location>, other: Option<Asn>, adjustedLocation: Option<Placement>)

  /** The step between cells, in degrees. */
  const STEP: real := 0.0001

  function Payload<V>(row: Option<Row<V>>): Option<V> {
    match row case None => None case Some(r) => Some(r.payload)
  }

  class Resolver {
    const cache: LocationCache
    const locations: Table<Location>
    const asn: Table<Asn>

    ghost predicate Valid()
      reads this, cache, locations, asn
    {
      cache.Valid() && locations.Valid() && asn.Valid()
    }

    constructor (locations: Table<Location>, asn: Table<Asn>)
      requires locations.Valid() && asn.Valid()
      ensures Valid() && fresh(cache) && cache.calls == []
      ensures this.locations == locations && this.asn == asn
    {
      this.locations := locations;
      this.asn := asn;
      cache := new LocationCache();
    }

    /** The tables answer as a scan of the imported rows would; exactly the addresses with a
        location take a cell around it. */
    method Find(ip: u32) returns (info: AddressInfo)
      requires Valid()
      modifies cache
      ensures Valid()
      ensures info.address == ip
      ensures info.location == match Scan(locations.rows, ip) case None => None case Some(r) => Some(r.payload)
      ensures info.other == match Scan(asn.rows, ip) case None => None case Some(r) => Some(r.payload)
      ensures info.location.None? ==> info.adjustedLocation.None? && cache.calls == old(cache.calls)
      ensures info.location.Some? ==>
        var c := Call(info.location.value.latitude, info.location.value.longitude);
        && cache.calls == old(cache.calls) + [c]
        && info.adjustedLocation == Some(Placement(c, LastOffset(cache.calls), STEP))
    {
      var location := locations.Lookup(ip);
      var other := asn.Lookup(ip);
      var adjusted: Option<Placement> := None;
      if location.Some? {
        var p := cache.Adjust(Call(location.value.latitude, location.value.longitude), STEP);
        adjusted := Some(p);
      }
      info := AddressInfo(ip, location, other, adjusted);
    }

    /** A whole list of addresses: each entry is the full answer for its address, given what the
        cache had seen before the list and the located addresses up to it. */
    method FindAll(ips: seq<u32>) returns (infos: seq<AddressInfo>)
      requires Valid()
      modifies cache
      ensures Valid() && |infos| == |ips|
      ensures forall i | 0 <= i < |ips| ::
        infos[i] == InfoAt(locations.rows, asn.rows, old(cache.calls), ips, i)
      ensures forall i | 0 <= i < |ips| ::
        && infos[i].address == ips[i]
        && infos[i].location == (match Scan(locations.rows, ips[i]) case None => None case Some(r) => Some(r.payload))
        && infos[i].other == (match Scan(asn.rows, ips[i]) case None => None case Some(r) => Some(r.payload))
        && (infos[i].adjustedLocation.Some? <==> infos[i].location.Some?)
      ensures cache.calls == old(cache.calls) + Located(locations.rows, ips)
    {
      infos := [];
      assert ips[..0] == [];
      for n := 0 to |ips|
        invariant Valid() && |infos| == n
        invariant forall i | 0 <= i < n ::
          infos[i] == InfoAt(locations.rows, asn.rows, old(cache.calls), ips, i)
        invariant cache.calls == old(cache.calls) + Located(locations.rows, ips[..n])
      {
        assert ips[..n + 1][..n] == ips[..n];
        ghost var before := cache.calls;
        var info := Find(ips[n]);
        infos := infos + [info];
        assert cache.calls == old(cache.calls) + Located(locations.rows, ips[..n + 1]);
        assert info == InfoAt(locations.rows, asn.rows, old(cache.calls), ips, n);
      }
      assert ips[..|ips|] == ips;
    }
  }

  /** The coordinates of the addresses that have one. */
  function Located(rows: seq<Row<Location>>, ips: seq<u32>): seq<Call> {
    if ips == [] then [] else
      var before := Located(rows, ips[..|ips| - 1]);
      match Scan(rows, ips[|ips| - 1])
      case None => before
      case Some(r) => before + [Call(r.payload.latitude, r.payload.longitude)]
  }

  function Spot(r: Row<Location>): Call { Call(r.payload.latitude, r.payload.longitude) }

  /** The answer for address i of a list, after the calls the cache had seen before the list. */
  function InfoAt(rows: seq<Row<Location>>, asns: seq<Row<Asn>>, before: seq<Call>, ips: seq<u32>, i: nat): AddressInfo
    requires i < |ips|
  {
    var row := Scan(rows, ips[i]);
    assert row.Some? ==> before + Located(rows, ips[..i + 1]) != [] by { assert ips[..i + 1][i] == ips[i]; }
    AddressInfo(
      ips[i],
      Payload(row),
      Payload(Scan(asns, ips[i])),
      match row
      case None => None
      case Some(r) => Some(Placement(Spot(r), LastOffset(before + Located(rows, ips[..i + 1])), STEP)))
  }

  lemma {:induction false} LocatedPrefix(rows: seq<Row<Location>>, ips: seq<u32>, n: nat)
    requires n <= |ips|
    ensures |Located(rows, ips[..n])| <= |Located(rows, ips)|
    ensures Located(rows, ips)[..|Located(rows, ips[..n])|] == Located(rows, ips[..n])
  {
    if n < |ips| {
      LocatedPrefix(rows, ips[..|ips| - 1], n);
      assert ips[..|ips| - 1][..n] == ips[..n];
    } else {
      assert ips[..n] == ips;
    }
  }

  lemma LocatedGrows(rows: seq<Row<Location>>, ips: seq<u32>, i: nat)
    requires i < |ips| && Scan(rows, ips[i]).Some?
    ensures Located(rows, ips[..i + 1]) == Located(rows, ips[..i]) + [Spot(Scan(rows, ips[i]).value)]
  {
    assert ips[..i + 1][..i] == ips[..i];
  }

  /** Two calls of one history for one finite coordinate, the second the last. */
  lemma ApartInHistory(first: seq<Call>, second: seq<Call>)
    requires first != [] && first < second
    requires var c, d := first[|first| - 1], second[|second| - 1];
             AreFinite(c) && AreFinite(d) && SameSpot(c, d)
    ensures Placement(first[|first| - 1], LastOffset(first), STEP).At()
         != Placement(second[|second| - 1], LastOffset(second), STEP).At()
  {
    assert second[..|first|] == first;
    assert second[..|second|] == second;
    PlacementsDistinct(second, |first| - 1, |second| - 1, STEP);
  }

  lemma HistoryGrows(rows: seq<Row<Location>>, before: seq<Call>, ips: seq<u32>, i: nat, j: nat)
    requires i < j < |ips| && Scan(rows, ips[j]).Some?
    ensures before + Located(rows, ips[..i + 1]) < before + Located(rows, ips[..j + 1])
  {
    LocatedGrows(rows, ips, j);
    LocatedPrefix(rows, ips[..j], i + 1);
    assert ips[..j][..i + 1] == ips[..i + 1];
  }

  /** Two addresses of one list that are located at one finite coordinate are placed at distinct
      points, whatever stands between them and whatever the cache had seen before. */
  lemma ListedAddressesApart(
      rows: seq<Row<Location>>, asns: seq<Row<Asn>>, before: seq<Call>, ips: seq<u32>, i: nat, j: nat)
    requires i < j < |ips| && Scan(rows, ips[i]).Some? && Scan(rows, ips[j]).Some?
    requires var c, d := Spot(Scan(rows, ips[i]).value), Spot(Scan(rows, ips[j]).value);
             AreFinite(c) && AreFinite(d) && SameSpot(c, d)
    ensures var p := InfoAt(rows, asns, before, ips, i).adjustedLocation;
            var q := InfoAt(rows, asns, before, ips, j).adjustedLocation;
            p.Some? && q.Some? && p.value.At() != q.value.At()
  {
    LocatedGrows(rows, ips, i);
    LocatedGrows(rows, ips, j);
    HistoryGrows(rows, before, ips, i, j);
    ApartInHistory(before + Located(rows, ips[..i + 1]), before + Located(rows, ips[..j + 1]));
  }
}
