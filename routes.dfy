/** The request handling that chooses which store query answers
    `GET /api/colleges`, `GET /api/colleges/:id`, `GET /api/timelines` and
    `DELETE /api/saved-items`, and which status the answer carries. Query
    parameters are optional strings; HTTP itself is not modelled. */
module Routes {
  import opened Base
  import opened Text
  import opened Tables
  import opened Schema
  import opened Colleges
  import opened Timelines
  import opened Storage

  /** The answer of a handler: a body with status 200, or not found (404). */
  datatype Outcome<T> = Ok(body: T) | NotFound

  function Status<T>(o: Outcome<T>): (code: int)
    ensures code == 200 <==> o.Ok?
    ensures code == 404 <==> o.NotFound?
  {
    if o.Ok? then 200 else 404
  }

  /** `v && v !== 'all' ? v : undefined`. */
  function DropAll(v: Option<string>): (r: Option<string>)
    ensures r.Some? <==> Truthy(v) && v.value != "all"
    ensures r.Some? ==> r == v
  {
    if Truthy(v) && v.value != "all" then v else None
  }

  /** The query parameters of `GET /api/colleges`. */
  datatype CollegesRequest = CollegesRequest(location: Option<string>, stream: Option<string>, kind: Option<string>)

  /** With any truthy parameter the combined filter answers, with `location`
      passed through as given and `'all'` for stream or type meaning no
      filter; otherwise the plain active-college list does. */
  function ChooseCollegeQuery(req: CollegesRequest): (q: CollegeQuery)
    ensures q.AllColleges? <==> !Truthy(req.location) && !Truthy(req.stream) && !Truthy(req.kind)
    ensures q.AllColleges? || q.Filtered?
    ensures q.Filtered? ==> q.filters == Filters(req.location, DropAll(req.stream), DropAll(req.kind))
  {
    if Truthy(req.location) || Truthy(req.stream) || Truthy(req.kind) then
      Filtered(Filters(req.location, DropAll(req.stream), DropAll(req.kind)))
    else
      AllColleges
  }

  /** `GET /api/colleges`. */
  function CollegesResponse(t: Table<College>, req: CollegesRequest): (r: seq<College>)
    ensures forall c :: c in r <==>
              && c in Values(t)
              && c.isActive
              && (Truthy(req.location) ==> ContainsIgnoringCase(c.location, req.location.value))
              && (Truthy(req.kind) && req.kind.value != "all" ==> c.kind == req.kind.value)
              && (Truthy(req.stream) && req.stream.value != "all" && c.streams.StreamList? ==>
                    StreamMatches(c.streams.names, req.stream.value))
  {
    Query(t, ChooseCollegeQuery(req))
  }

  /** Asking for stream `'all'` and/or type `'all'` and no location gives
      the same colleges as asking with no parameters at all. */
  lemma AllMeansUnfiltered(t: Table<College>, req: CollegesRequest)
    requires !Truthy(req.location)
    requires !Truthy(req.stream) || req.stream.value == "all"
    requires !Truthy(req.kind) || req.kind.value == "all"
    ensures CollegesResponse(t, req) == CollegesResponse(t, CollegesRequest(None, None, None))
  {
    var q := ChooseCollegeQuery(req);
    if q.Filtered? {
      FilteredWithoutFiltersIsAll(t, q.filters);
    }
  }

  /** A stream or type parameter other than `'all'` is applied exactly as
      the standalone filter would apply it. */
  lemma NamedParametersFilter(req: CollegesRequest, c: College)
    requires Truthy(req.stream) || Truthy(req.kind) || Truthy(req.location)
    ensures Admits(ChooseCollegeQuery(req), c) <==>
              && c.isActive
              && (Truthy(req.location) ==> ContainsIgnoringCase(c.location, req.location.value))
              && (Truthy(req.kind) && req.kind.value != "all" ==> c.kind == req.kind.value)
              && (Truthy(req.stream) && req.stream.value != "all" && c.streams.StreamList? ==>
                    StreamMatches(c.streams.names, req.stream.value))
  {
  }

  /** `location` is not normalised: `location=all` keeps only the colleges
      whose location contains "all", ignoring case. */
  lemma LocationAllIsLiteral(t: Table<College>, c: College)
    ensures Admits(ChooseCollegeQuery(CollegesRequest(Some("all"), None, None)), c) <==>
              c.isActive && ContainsIgnoringCase(c.location, "all")
  {
  }

  /** `GET /api/colleges/:id`: the college filed under `id`, or not found. */
  function CollegeById(t: Table<College>, id: string): (o: Outcome<College>)
    ensures o.NotFound? <==> id !in Keys(t)
    ensures o.Ok? ==> exists i :: 0 <= i < |t| && t[i] == Entry(id, o.body)
  {
    match Get(t, id)
    case None => NotFound
    case Some(c) => Ok(c)
  }

  /** In a store that files every college under its own id, the college
      found under `id` has that id. */
  lemma CollegeByIdHasId(t: Table<College>, id: string)
    requires FiledById(t, CollegeId)
    ensures CollegeById(t, id).Ok? ==> CollegeById(t, id).body.id == id
  {
  }

  /** The query parameter of `GET /api/timelines`. */
  datatype TimelinesRequest = TimelinesRequest(kind: Option<string>)

  /** A truthy `type` selects by type, taken literally (there is no `'all'`
      here); otherwise the sorted active list answers. */
  function ChooseTimelineQuery(req: TimelinesRequest): (q: TimelineQuery)
    ensures q.TimelinesByKind? <==> Truthy(req.kind)
    ensures q.TimelinesByKind? ==> q.kind == req.kind.value
  {
    if Truthy(req.kind) then TimelinesByKind(req.kind.value) else ActiveTimelines
  }

  /** `GET /api/timelines`. */
  function TimelinesResponse(t: Table<Timeline>, req: TimelinesRequest): (r: seq<Timeline>)
    ensures forall x :: x in r <==> x in Values(t) && x.isActive && (Truthy(req.kind) ==> x.kind == req.kind.value)
    ensures !Truthy(req.kind) ==> SortedByDeadline(r)
  {
    var q := ChooseTimelineQuery(req);
    if q.ActiveTimelines? then
      ActiveTimelinesSpec(t, 0);
      QueryTimelines(t, q)
    else
      QueryTimelines(t, q)
  }

  /** Unlike the college list, `type=all` lists only timelines whose type is
      literally "all". */
  lemma TimelineTypeAllIsLiteral(t: Table<Timeline>, x: Timeline)
    ensures x in TimelinesResponse(t, TimelinesRequest(Some("all"))) <==>
              x in Values(t) && x.isActive && x.kind == "all"
  {
  }

  /** `DELETE /api/saved-items`: `{ success: true }` when an item was
      removed, not found otherwise. */
  function DeleteSavedItemResponse(deleted: bool): (o: Outcome<bool>)
    ensures o.Ok? <==> deleted
    ensures o.Ok? ==> o.body
  {
    if deleted then Ok(true) else NotFound
  }

  /** The delete request answers 200 exactly when some saved item matches
      all three fields. */
  lemma DeleteStatus(t: Table<SavedItem>, k: ItemRef)
    ensures Status(DeleteSavedItemResponse(FirstMatch(t, k).Some?)) == 200 <==>
              exists j :: 0 <= j < |t| && MatchesItem(k, t[j])
  {
  }
}
