/** Nearby attractions from the places provider (app.js:1-65): three request
    descriptors tried in order, each response normalised into `Place`s sorted
    by distance, and the first non-empty list returned. */
module Places {
  import opened Wrappers
  import Tiered

  datatype Point = Point(lat: real, lon: real)

  /** A place as handed to callers. `dist` is carried over from radius-format
      items and is absent on places built from GeoJSON features. */
  datatype Place = Place(name: string, point: Point, xid: Option<string>, dist: Option<real>)

  /** One element of a response list, discriminated the way the normaliser
      probes it: a truthy `point` first, then `geometry.coordinates`
      (GeoJSON order: longitude, then latitude), otherwise neither. A feature
      without `properties` has neither a name nor an xid. */
  datatype RawItem =
    | PointItem(name: Option<string>, point: Point, xid: Option<string>, dist: Option<real>)
    | FeatureItem(featureName: Option<string>, featureXid: Option<string>, lon: real, lat: real)
    | OtherItem

  /** A successful response body: a bare array, or an object whose `features`
      list (possibly missing) holds the items. */
  datatype Body = ItemList(items: seq<RawItem>) | FeatureCollection(features: Option<seq<RawItem>>)

  /** One request descriptor. An empty `kinds` means no category filter. */
  datatype Query =
    | RadiusQuery(lat: real, lon: real, radius: real, kinds: string, rate: int)
    | BboxQuery(lonMin: real, lonMax: real, latMin: real, latMax: real, kinds: string, rate: int)

  const SightKinds: string := "interesting_places,sights,architecture,historic"
  const MinRate: int := 2

  // ------------------------------------------------------------ descriptors

  function Min(a: real, b: real): real { if a <= b then a else b }
  function Max(a: real, b: real): real { if a >= b then a else b }

  /** `Math.max(lo, Math.min(x, hi))`: `x` moved into `[lo, hi]`. */
  function Clamp(lo: real, hi: real, x: real): (r: real)
    requires lo <= hi
    ensures lo <= r <= hi
    ensures lo <= x <= hi ==> r == x
    ensures x < lo ==> r == lo
    ensures hi < x ==> r == hi
  {
    Max(lo, Min(x, hi))
  }

  /** The three descriptors, in the order they are tried: a narrow radius with
      the sightseeing filter, a broader unfiltered radius, then a bounding box
      whose half-span is the radius in degrees, kept within [0.01, 0.08]. */
  function Attempts(lat: real, lon: real, radius: real): (qs: seq<Query>)
    ensures |qs| == 3
    ensures qs[0].RadiusQuery? && qs[1].RadiusQuery? && qs[2].BboxQuery?
    ensures qs[0].kinds == SightKinds && qs[1].kinds == "" && qs[2].kinds == ""
    ensures forall i :: 0 <= i < 3 ==> qs[i].rate == MinRate
    ensures qs[0].lat == lat == qs[1].lat && qs[0].lon == lon == qs[1].lon
    ensures qs[0].radius == Clamp(500.0, 3000.0, radius) && qs[1].radius == Clamp(1000.0, 5000.0, radius)
    ensures qs[2].lonMax - qs[2].lonMin == 2.0 * Clamp(0.01, 0.08, radius / 120000.0)
    ensures 500.0 <= qs[0].radius <= 3000.0
    ensures 500.0 <= radius <= 3000.0 ==> qs[0].radius == radius
    ensures 1000.0 <= qs[1].radius <= 5000.0
    ensures 1000.0 <= radius <= 5000.0 ==> qs[1].radius == radius
    ensures qs[2].lonMin + qs[2].lonMax == 2.0 * lon && qs[2].latMin + qs[2].latMax == 2.0 * lat
    ensures qs[2].lonMax - qs[2].lonMin == qs[2].latMax - qs[2].latMin
    ensures 0.02 <= qs[2].lonMax - qs[2].lonMin <= 0.16
    ensures 1200.0 <= radius <= 9600.0 ==> qs[2].lonMax - qs[2].lonMin == radius / 60000.0
  {
    var deg := Min(0.08, Max(0.01, radius / 120000.0));
    [ RadiusQuery(lat, lon, Clamp(500.0, 3000.0, radius), SightKinds, MinRate),
      RadiusQuery(lat, lon, Clamp(1000.0, 5000.0, radius), "", MinRate),
      BboxQuery(lon - deg, lon + deg, lat - deg, lat + deg, "", MinRate) ]
  }

  // ------------------------------------------------------------ normalisation

  function ItemsOf(b: Body): seq<RawItem> {
    match b
    case ItemList(items) => items
    case FeatureCollection(features) => features.GetOr([])
  }

  /** One item through the `map` and both `filter`s: kept only with a truthy
      name; a feature is reshaped, swapping its coordinates into a point. */
  function Convert(it: RawItem): (r: Option<Place>)
    ensures r.Some? ==> r.value.name != ""
    ensures it.OtherItem? ==> r.None?
    ensures it.PointItem? ==> (r.Some? <==> Truthy(it.name))
    ensures it.FeatureItem? ==> (r.Some? <==> Truthy(it.featureName))
    ensures it.PointItem? && r.Some? ==> r.value == Place(it.name.value, it.point, it.xid, it.dist)
    ensures it.FeatureItem? && r.Some? ==>
              r.value == Place(it.featureName.value, Point(it.lat, it.lon), it.featureXid, None)
  {
    match it
    case PointItem(name, point, xid, dist) =>
      if Truthy(name) then Some(Place(name.value, point, xid, dist)) else None
    case FeatureItem(name, xid, lon, lat) =>
      if Truthy(name) then Some(Place(name.value, Point(lat, lon), xid, None)) else None
    case OtherItem => None
  }

  /** The items that survive conversion, in response order. */
  function Survivors(items: seq<RawItem>): (ps: seq<Place>)
    ensures |ps| <= |items|
    ensures forall p :: p in ps ==> p.name != ""
    ensures forall p :: p in ps <==> exists i :: 0 <= i < |items| && Convert(items[i]) == Some(p)
  {
    if |items| == 0 then []
    else
      var rest := Survivors(items[1..]);
      assert forall i :: 0 < i < |items| ==> items[i] == items[1..][i - 1];
      match Convert(items[0])
      case Some(p) => [p] + rest
      case None => rest
  }

  /** The normaliser is a filter-map: a single item gives its conversion or
      nothing, and a response splits into its parts. Together these fix the
      survivors' order and multiplicity. */
  lemma SurvivorsSingle(it: RawItem)
    ensures Survivors([it]) == if Convert(it).Some? then [Convert(it).value] else []
  {
    assert [it][1..] == [];
  }

  lemma {:induction false} SurvivorsConcat(a: seq<RawItem>, b: seq<RawItem>)
    ensures Survivors(a + b) == Survivors(a) + Survivors(b)
  {
    if |a| == 0 {
      assert a + b == b;
    } else {
      assert (a + b)[0] == a[0];
      assert (a + b)[1..] == a[1..] + b;
      SurvivorsConcat(a[1..], b);
    }
  }

  // ------------------------------------------------------------ sorting

  /** `a.dist || 0`. */
  function DistKey(p: Place): real {
    p.dist.GetOr(0.0)
  }

  predicate SortedByDist(ps: seq<Place>) {
    forall i, j :: 0 <= i < j < |ps| ==> DistKey(ps[i]) <= DistKey(ps[j])
  }

  /** Places before `p` have a strictly smaller key, so `p` precedes every
      equal-keyed place of `ps`. */
  function Insert(p: Place, ps: seq<Place>): (r: seq<Place>)
    requires SortedByDist(ps)
    ensures SortedByDist(r)
    ensures multiset(r) == multiset(ps) + multiset{p}
    ensures |r| == |ps| + 1 && (r[0] == p || (|ps| > 0 && r[0] == ps[0]))
  {
    if |ps| == 0 || DistKey(p) <= DistKey(ps[0]) then [p] + ps
    else
      var tail := Insert(p, ps[1..]);
      assert ps == [ps[0]] + ps[1..];
      [ps[0]] + tail
  }

  /** The comparator sort `(a, b) => (a.dist || 0) - (b.dist || 0)`, which is
      stable: a permutation of its input, ascending by distance. */
  function SortByDist(ps: seq<Place>): (r: seq<Place>)
    ensures SortedByDist(r)
    ensures multiset(r) == multiset(ps)
  {
    if |ps| == 0 then []
    else
      assert ps == [ps[0]] + ps[1..];
      Insert(ps[0], SortByDist(ps[1..]))
  }

  /** The places of `ps` whose key is `k`, in order. */
  function WithKey(ps: seq<Place>, k: real): seq<Place> {
    if |ps| == 0 then []
    else (if DistKey(ps[0]) == k then [ps[0]] else []) + WithKey(ps[1..], k)
  }

  lemma WithKeyCons(x: Place, s: seq<Place>, k: real)
    ensures WithKey([x] + s, k) == (if DistKey(x) == k then [x] else []) + WithKey(s, k)
  {
    assert ([x] + s)[1..] == s;
  }

  lemma {:induction false} InsertWithKey(p: Place, ps: seq<Place>, k: real)
    requires SortedByDist(ps)
    ensures WithKey(Insert(p, ps), k) == (if DistKey(p) == k then [p] else []) + WithKey(ps, k)
  {
    if |ps| == 0 || DistKey(p) <= DistKey(ps[0]) {
      WithKeyCons(p, ps, k);
    } else {
      var tail := Insert(p, ps[1..]);
      InsertWithKey(p, ps[1..], k);
      assert Insert(p, ps) == [ps[0]] + tail;
      assert ps == [ps[0]] + ps[1..];
      WithKeyPastHead(ps[0], p, tail, ps[1..], k);
    }
  }

  /** Putting `x`, whose key is smaller than `p`'s, in front of both sides
      keeps `p`'s place among the places with key `k`. */
  lemma WithKeyPastHead(x: Place, p: Place, tail: seq<Place>, rest: seq<Place>, k: real)
    requires DistKey(x) < DistKey(p)
    requires WithKey(tail, k) == (if DistKey(p) == k then [p] else []) + WithKey(rest, k)
    ensures WithKey([x] + tail, k) == (if DistKey(p) == k then [p] else []) + WithKey([x] + rest, k)
  {
    WithKeyCons(x, tail, k);
    WithKeyCons(x, rest, k);
    if DistKey(x) == k {
      assert DistKey(p) != k;
      assert [] + WithKey([x] + rest, k) == WithKey([x] + rest, k);
    } else {
      assert [] + WithKey(rest, k) == WithKey(rest, k);
    }
  }

  /** Stability: for every distance, the places with that distance keep their
      relative order through the sort. */
  lemma {:induction false} SortByDistStable(ps: seq<Place>, k: real)
    ensures WithKey(SortByDist(ps), k) == WithKey(ps, k)
  {
    if |ps| > 0 {
      SortByDistStable(ps[1..], k);
      InsertWithKey(ps[0], SortByDist(ps[1..]), k);
    }
  }

  /** The normaliser: survivors, sorted by distance. */
  function Normalize(items: seq<RawItem>): (ps: seq<Place>)
    ensures SortedByDist(ps)
    ensures multiset(ps) == multiset(Survivors(items))
    ensures forall p :: p in ps ==> p.name != ""
    ensures (ps == []) == (Survivors(items) == [])
    ensures forall k :: WithKey(ps, k) == WithKey(Survivors(items), k)
  {
    var s := Survivors(items);
    var r := SortByDist(s);
    forall k
      ensures WithKey(r, k) == WithKey(s, k)
    {
      SortByDistStable(s, k);
    }
    assert forall p :: p in r ==> p in multiset(r);
    assert |r| == |multiset(r)| == |multiset(s)| == |s|;
    r
  }

  // ------------------------------------------------------------ fallback

  /** One attempt: a failed, non-ok or throwing request counts as empty. */
  function Attempt(fetch: Query -> Option<Body>, q: Query): (ps: seq<Place>)
    ensures fetch(q).None? ==> ps == []
    ensures fetch(q).Some? ==> multiset(ps) == multiset(Survivors(ItemsOf(fetch(q).value)))
    ensures fetch(q).Some? ==> forall k :: WithKey(ps, k) == WithKey(Survivors(ItemsOf(fetch(q).value)), k)
    ensures SortedByDist(ps)
    ensures forall p :: p in ps ==> p.name != ""
  {
    match fetch(q)
    case None => []
    case Some(b) => Normalize(ItemsOf(b))
  }

  function Runner(fetch: Query -> Option<Body>): Query -> seq<Place> {
    q => Attempt(fetch, q)
  }

  /** `fetchOTMPlaces`: with no API key nothing is requested and the list is
      empty; otherwise the first non-empty normalised attempt wins, later
      descriptors are never requested, and exhaustion yields an empty list. */
  function FetchPlaces(hasKey: bool, lat: real, lon: real, radius: real, fetch: Query -> Option<Body>)
    : (s: Tiered.Scan<Place>)
    ensures !hasKey ==> s.result == [] && s.tried == 0
    ensures s.tried <= 3
    ensures s.result != [] ==>
              1 <= s.tried && s.result == Attempt(fetch, Attempts(lat, lon, radius)[s.tried - 1])
              && forall i :: 0 <= i < s.tried - 1 ==> Attempt(fetch, Attempts(lat, lon, radius)[i]) == []
    ensures hasKey && s.result == [] ==>
              s.tried == 3 && forall i :: 0 <= i < 3 ==> Attempt(fetch, Attempts(lat, lon, radius)[i]) == []
    ensures SortedByDist(s.result)
    ensures forall p :: p in s.result ==> p.name != ""
  {
    if !hasKey then Tiered.Scan([], 0)
    else
      var qs := Attempts(lat, lon, radius);
      var s := Tiered.FirstNonEmpty(qs, Runner(fetch));
      assert forall i :: 0 <= i < 3 ==> Runner(fetch)(qs[i]) == Attempt(fetch, qs[i]);
      assert s.result != [] ==> s.result == Attempt(fetch, qs[s.tried - 1]);
      s
  }

  /** The `for ... of attempts` loop as written, with `continue` on a failed
      request and an early `return` on the first non-empty list. */
  method FetchPlacesLoop(hasKey: bool, lat: real, lon: real, radius: real, fetch: Query -> Option<Body>)
    returns (places: seq<Place>, tried: nat)
    ensures Tiered.Scan(places, tried) == FetchPlaces(hasKey, lat, lon, radius, fetch)
  {
    if !hasKey {
      return [], 0;
    }
    var attempts := Attempts(lat, lon, radius);
    var i := 0;
    while i < |attempts|
      invariant 0 <= i <= |attempts|
      invariant Tiered.FirstNonEmpty(attempts, Runner(fetch))
                == var s := Tiered.FirstNonEmpty(attempts[i..], Runner(fetch)); Tiered.Scan(s.result, s.tried + i)
    {
      assert attempts[i..][1..] == attempts[i + 1..];
      var response := fetch(attempts[i]);
      if response.None? {
        i := i + 1;
        continue;
      }
      var filtered := Normalize(ItemsOf(response.value));
      if |filtered| > 0 {
        return filtered, i + 1;
      }
      i := i + 1;
    }
    return [], |attempts|;
  }
}
