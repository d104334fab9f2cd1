/** The marker list of the map view: every place whose `location` decodes
    becomes a marker with its coordinates, icon and status; the others are
    dropped. Also the choice of the map's centre. */
module MapMarkers {
  import opened Wrappers
  import JsArray
  import opened WkbParser

  datatype Visit = Visit(id: string)

  /** The fields of a place record the map reads. `visits` is absent (`null` or
      `undefined`) or a list. */
  datatype Place = Place(id: string, name: string, location: JsValue, visits: Option<seq<Visit>>)

  /** The `places` property: an array, or anything else. */
  datatype PlacesProp = NotAnArray | Places(items: seq<Place>)

  datatype Icon = WishlistIcon | VisitedIcon

  const STATUS_VISITED := "Sudah Dikunjungi"
  const STATUS_WISHLIST := "Wishlist"

  /** What the `map` step makes of a place: `{...p, isValid: false}`, or the
      place with `lat`, `lng`, `isValid: true`, `icon` and `status`. */
  datatype MapPlace =
    | Unplaced(place: Place)
    | Marker(place: Place, lat: Float64, lng: Float64, icon: Icon, status: string)

  /** `p.visits && p.visits.length > 0`. */
  predicate HasVisits(p: Place) {
    p.visits.Some? && |p.visits.value| > 0
  }

  predicate HasCoords(p: Place) {
    Decode(p.location).Some?
  }

  /** The `map` step on one place: a marker exactly when its location
      decodes, carrying the decoded coordinates, the visited icon and status
      when it has visits and the wishlist ones otherwise. */
  function Annotate(p: Place): (m: MapPlace)
    ensures m.place == p
    ensures m.Marker? <==> HasCoords(p)
    ensures m.Marker? ==> Decode(p.location) == Some(LatLng(m.lat, m.lng))
    ensures m.Marker? ==> (m.icon == VisitedIcon <==> HasVisits(p))
    ensures m.Marker? ==> m.status == (if HasVisits(p) then STATUS_VISITED else STATUS_WISHLIST)
  {
    match Decode(p.location)
    case Some(c) =>
      Marker(p, c.lat, c.lng,
             if HasVisits(p) then VisitedIcon else WishlistIcon,
             if HasVisits(p) then STATUS_VISITED else STATUS_WISHLIST)
    case None => Unplaced(p)
  }

  /** `placesWithCoords`: `places.map(...).filter(p => p.isValid)`; only
      markers are left, and none when `places` is not an array. */
  function PlacesWithCoords(places: PlacesProp): (r: seq<MapPlace>)
    ensures places.NotAnArray? ==> r == []
    ensures places.Places? ==> |r| <= |places.items|
    ensures forall i :: 0 <= i < |r| ==> r[i].Marker?
  {
    match places
    case NotAnArray => []
    case Places(items) => JsArray.Filter(JsArray.Map(items, Annotate), (m: MapPlace) => m.Marker?)
  }

  /** A `places` value that is not an array gives no markers. */
  lemma NotAnArrayHasNoMarkers()
    ensures PlacesWithCoords(NotAnArray) == []
  {
  }

  /** Mapping then filtering equals keeping the places that decode, in their
      order, and then annotating them. */
  lemma KeepsDecodablePlacesInOrder(items: seq<Place>)
    ensures PlacesWithCoords(Places(items))
         == JsArray.Map(JsArray.Filter(items, HasCoords), Annotate)
  {
    var isMarker := (m: MapPlace) => m.Marker?;
    assert forall p :: isMarker(Annotate(p)) == HasCoords(p);
    JsArray.FilterMapFusion(items, Annotate, isMarker, HasCoords);
  }

  /** Every place that decodes has its marker in the list. */
  lemma {:induction false} DecodablePlaceHasMarker(items: seq<Place>, p: Place)
    requires p in items && HasCoords(p)
    ensures Annotate(p) in PlacesWithCoords(Places(items))
  {
    KeepsDecodablePlacesInOrder(items);
    var kept := JsArray.Filter(items, HasCoords);
    assert p in kept;
    var j :| 0 <= j < |kept| && kept[j] == p;
    assert PlacesWithCoords(Places(items))[j] == Annotate(p);
  }

  /** Every marker in the list is the annotation of a place that decodes. */
  lemma {:induction false} MarkerIsAnnotatedPlace(items: seq<Place>, m: MapPlace)
    requires m in PlacesWithCoords(Places(items))
    ensures m.place in items && HasCoords(m.place) && m == Annotate(m.place)
  {
    KeepsDecodablePlacesInOrder(items);
    var kept := JsArray.Filter(items, HasCoords);
    var j :| 0 <= j < |kept| && PlacesWithCoords(Places(items))[j] == m;
    assert m == Annotate(kept[j]);
  }

  /** The markers: no more than the places, one per decodable place and none
      for the others, each with the coordinates its `location` decodes to and
      the visited icon and status exactly when it has visits. */
  lemma MarkerContents(items: seq<Place>)
    ensures |PlacesWithCoords(Places(items))| <= |items|
    ensures forall p :: p in items ==>
              (HasCoords(p) <==> Annotate(p) in PlacesWithCoords(Places(items)))
    ensures forall m :: m in PlacesWithCoords(Places(items)) ==>
              m.Marker? && m.place in items &&
              Decode(m.place.location) == Some(LatLng(m.lat, m.lng)) &&
              (m.status == (if HasVisits(m.place) then STATUS_VISITED else STATUS_WISHLIST)) &&
              (m.icon == VisitedIcon <==> HasVisits(m.place))
  {
    var r := PlacesWithCoords(Places(items));
    forall p | p in items
      ensures HasCoords(p) <==> Annotate(p) in r
    {
      if HasCoords(p) {
        DecodablePlaceHasMarker(items, p);
      }
    }
    forall m | m in r
      ensures m.Marker? && m.place in items
    {
      MarkerIsAnnotatedPlace(items, m);
    }
  }

  /** The user's position as the map page passes it. */
  datatype UserLocation = UserLocation(lat: Float64, long: Float64)

  /** -6.2088 and 106.8456, a point in Jakarta. */
  const DEFAULT_LAT := Float64([0xC0, 0x18, 0xD5, 0xCF, 0xAA, 0xCD, 0x9E, 0x84])
  const DEFAULT_LNG := Float64([0x40, 0x5A, 0xB6, 0x1E, 0x4F, 0x76, 0x5F, 0xD9])

  /** `defaultCenter`: the user's position when known, otherwise Jakarta. */
  function DefaultCenter(userLocation: Option<UserLocation>): (center: (Float64, Float64))
    ensures userLocation.Some? ==> center == (userLocation.value.lat, userLocation.value.long)
    ensures userLocation.None? ==> center == (DEFAULT_LAT, DEFAULT_LNG)
  {
    if userLocation.Some? then (userLocation.value.lat, userLocation.value.long)
    else (DEFAULT_LAT, DEFAULT_LNG)
  }

  /** The fallback centre is itself a coordinate the decoder would accept. */
  lemma DefaultCenterInRange()
    ensures InRange(DefaultCenter(None).0, DefaultCenter(None).1)
  {
  }
}
