/** The records the planner passes around (types.ts and the type block of index.tsx). */
module Domain {
  import opened Basics

  /** How the trip is made. `Transit` is declared by the standalone type file only; no form
      offers it and neither translation table nor travel-mode table has an entry for it. */
  datatype TransportMode = Car | Pedestrian | Transit

  datatype Coordinates = Coordinates(latitude: real, longitude: real)

  /** A route point of the bundled revision: a stable id (for list keys) and the address text. */
  datatype Waypoint = Waypoint(id: int, value: string)

  /** An itinerary request. The bundled revision holds `Waypoint`s, the standalone files plain
      strings, so the route ("parcours") is generic in its element type. */
  datatype Request<W> = Request(name: string, transportMode: TransportMode, parcours: seq<W>,
                                currentLocation: Option<Coordinates>)

  /** What generation produced. The bundled revision may store an absent description. */
  datatype Response = Response(description: Option<string>, routeName: string)

  datatype SavedItinerary<W> = SavedItinerary(id: int, request: Request<W>, response: Response)

  /** `parcours.map(p => p.value)`. */
  function Values(p: seq<Waypoint>): (r: seq<string>)
    ensures |r| == |p|
    ensures forall i :: 0 <= i < |p| ==> r[i] == p[i].value
  {
    seq(|p|, i requires 0 <= i < |p| => p[i].value)
  }

  lemma ValuesAppend(a: seq<Waypoint>, b: seq<Waypoint>)
    ensures Values(a + b) == Values(a) + Values(b)
  {
  }

  function Ids(p: seq<Waypoint>): (r: seq<int>)
    ensures |r| == |p|
    ensures forall i :: 0 <= i < |p| ==> r[i] == p[i].id
  {
    seq(|p|, i requires 0 <= i < |p| => p[i].id)
  }

  /** No two route points share an id (React list keys). */
  predicate DistinctIds(p: seq<Waypoint>) {
    forall i, j :: 0 <= i < j < |p| ==> p[i].id != p[j].id
  }
}
