/** The request body of a Planet quick search: an AndFilter of a GeometryFilter
    and a DateRangeFilter, together with the item types searched. The HTTP
    POST itself is a function parameter (`post`) that maps a request to the
    features the service answers with. */
module SearchPlanet {
  import opened DateTimes

  /** A GeoJSON geometry: {"type": "Polygon", "coordinates": rings}, each ring a
      list of positions and each position a list of numbers. */
  datatype Geometry = Polygon(coordinates: seq<seq<seq<real>>>)

  /** The "config" of a DateRangeFilter: inclusive bounds. */
  datatype DateRange = DateRange(gte: string, lte: string)

  datatype Filter =
    | GeometryFilter(fieldName: string, geometry: Geometry)
    | DateRangeFilter(fieldName: string, range: DateRange)
    | AndFilter(filters: seq<Filter>)

  /** The "type" key each filter object carries. */
  function FilterType(f: Filter): string {
    match f
    case GeometryFilter(_, _) => "GeometryFilter"
    case DateRangeFilter(_, _) => "DateRangeFilter"
    case AndFilter(_) => "AndFilter"
  }

  datatype SearchRequest = SearchRequest(itemTypes: seq<string>, filter: Filter)

  /** The properties of a returned feature that the guide reads; every other key is
      kept, unexamined, in `others`. */
  datatype Properties = Properties(
    acquired: string,
    itemType: string,
    columns: int,
    pixelResolution: real,
    originX: real,
    originY: real,
    others: map<string, string>)

  datatype Feature = Feature(id: string, properties: Properties)

  const DefaultDateStart: string := "2001-07-01T00:00:00.000Z"
  const DefaultDateEnd: string := "2018-08-01T00:00:00.000Z"
  const DefaultItemTypes: seq<string> := ["PSScene3Band"]

  function GeometryFilterOf(geometry: Geometry): Filter {
    GeometryFilter("geometry", geometry)
  }

  function DateRangeFilterOf(dateStart: string, dateEnd: string): Filter {
    DateRangeFilter("acquired", DateRange(dateStart, dateEnd))
  }

  function CombinedFilter(geometry: Geometry, dateStart: string, dateEnd: string): Filter {
    AndFilter([GeometryFilterOf(geometry), DateRangeFilterOf(dateStart, dateEnd)])
  }

  /** The body of the quick-search POST, with the defaults of `search`. */
  function SearchEndpointRequest(
    geometry: Geometry,
    dateStart: string := DefaultDateStart,
    dateEnd: string := DefaultDateEnd,
    itemTypes: seq<string> := DefaultItemTypes): (req: SearchRequest)
    ensures req.itemTypes == itemTypes
    ensures ReadRequest(req) == Some((geometry, DateRange(dateStart, dateEnd)))
    ensures FilterType(req.filter) == "AndFilter"
  {
    SearchRequest(itemTypes, CombinedFilter(geometry, dateStart, dateEnd))
  }

  /** A request that carries `itemTypes` and reads back as the geometry and
      the bounds. */
  predicate Describes(req: SearchRequest, geometry: Geometry, dateStart: string, dateEnd: string,
                      itemTypes: seq<string>) {
    req.itemTypes == itemTypes && ReadRequest(req) == Some((geometry, DateRange(dateStart, dateEnd)))
  }

  /** `search`: the features the service answers the request with. The request
      posted is the only one that carries the item types and reads back as the
      geometry and the bounds. */
  function Search(
    post: SearchRequest -> seq<Feature>,
    geometry: Geometry,
    dateStart: string := DefaultDateStart,
    dateEnd: string := DefaultDateEnd,
    itemTypes: seq<string> := DefaultItemTypes): (features: seq<Feature>)
    ensures forall req :: Describes(req, geometry, dateStart, dateEnd, itemTypes) ==> features == post(req)
  {
    assert forall req :: Describes(req, geometry, dateStart, dateEnd, itemTypes) ==>
      req == SearchEndpointRequest(geometry, dateStart, dateEnd, itemTypes) by {
      forall req | Describes(req, geometry, dateStart, dateEnd, itemTypes)
        ensures req == SearchEndpointRequest(geometry, dateStart, dateEnd, itemTypes)
      {
        ReadRequestDetermines(req);
      }
    }
    post(SearchEndpointRequest(geometry, dateStart, dateEnd, itemTypes))
  }

  /** A request that reads back at all is the one built from what it reads back as. */
  lemma ReadRequestDetermines(req: SearchRequest)
    requires ReadRequest(req).Some?
    ensures var (geometry, range) := ReadRequest(req).value;
      req == SearchEndpointRequest(geometry, range.gte, range.lte, req.itemTypes)
  {
    var fs := req.filter.filters;
    assert fs == [fs[0], fs[1]];
  }

  /** What a reader of the request body finds in it: the geometry of the
      "geometry" filter and the bounds of the "acquired" filter, when the body is
      an AndFilter of exactly those two, in that order. */
  function ReadRequest(req: SearchRequest): Option<(Geometry, DateRange)> {
    match req.filter
    case AndFilter(fs) =>
      if |fs| == 2 && fs[0].GeometryFilter? && fs[0].fieldName == "geometry"
         && fs[1].DateRangeFilter? && fs[1].fieldName == "acquired"
      then Some((fs[0].geometry, fs[1].range))
      else None
    case _ => None
  }

  /** The combined filter is an AndFilter of exactly the geometry filter and the
      date filter, in that order, with those type keys. */
  lemma RequestShape(geometry: Geometry, dateStart: string, dateEnd: string, itemTypes: seq<string>)
    ensures var req := SearchEndpointRequest(geometry, dateStart, dateEnd, itemTypes);
      && req.filter.AndFilter?
      && req.filter.filters == [GeometryFilter("geometry", geometry),
                                DateRangeFilter("acquired", DateRange(dateStart, dateEnd))]
      && FilterType(req.filter.filters[0]) == "GeometryFilter"
      && FilterType(req.filter.filters[1]) == "DateRangeFilter"
  {
  }

  /** How the service reads a DateRangeFilter whose bounds are in the window's
      27-character "%Y-%m-%dT%H:%M:%S.%fZ" format: both bounds parse and the
      instant lies between them, both ends included. Bounds in another format,
      such as the request's 24-character defaults, admit nothing here. */
  predicate DateRangeAdmits(range: DateRange, acquired: Instant) {
    match (ParseTimestamp(range.gte), ParseTimestamp(range.lte))
    case (Some(lo), Some(hi)) =>
      ValidDateTime(lo) && ValidDateTime(hi) && FromCivil(lo) <= acquired <= FromCivil(hi)
    case _ => false
  }
}
