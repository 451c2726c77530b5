/**
 * SearchResultDto: the outward view of a stored search. The stored payload is decoded back into
 * a response; a null column or a payload that does not decode gives an empty response instead
 * of an error.
 */
module ResultView {
  import opened Errors
  import opened Dto
  import opened Entities

  datatype SearchResultDto = SearchResultDto(
    id: int,
    userId: int,
    userName: string,
    userEmail: string,
    city: string,
    query: string,
    createdAt: int,
    results: Option<GisSearchResponse>,   // None: the Java field is null
    resultsCount: Option<int>)

  /**
   * readValue on the column, falling back to `new GisSearchResponse()` when it throws. A null
   * column makes readValue throw; a payload that reads as JSON `null` leaves the field null.
   */
  function DecodeOrEmpty(column: Option<ResultsJson>): (r: Option<GisSearchResponse>)
    ensures column.Some? && ReadValue(column.value).Reads? ==> r == Some(ReadValue(column.value).response)
    ensures column.None? || ReadValue(column.value).Throws? ==> r == Some(EmptyResponse())
    ensures r.None? <==> column.Some? && ReadValue(column.value).ReadsNull?
  {
    match column
    case None => Some(EmptyResponse())
    case Some(j) =>
      match ReadValue(j)
      case Reads(d) => Some(d)
      case ReadsNull => None
      case Throws => Some(EmptyResponse())
  }

  /** `new SearchResultDto(entity, mapper)`. */
  function ToDto(x: SearchRecord): (d: SearchResultDto)
    ensures d.id == x.id && d.createdAt == x.createdAt && d.resultsCount == x.resultsCount
    ensures d.userId == x.user.id && d.userName == x.user.name && d.userEmail == x.user.email
    ensures d.city == x.city && d.query == x.query
  {
    SearchResultDto(x.id, x.user.id, x.user.name, x.user.email, x.city, x.query, x.createdAt,
                    DecodeOrEmpty(x.resultsJson), x.resultsCount)
  }

  /** `.map(entity -> new SearchResultDto(entity, mapper))` over a list, in order. */
  function Views(rs: seq<SearchRecord>): (vs: seq<SearchResultDto>)
    ensures |vs| == |rs|
    ensures forall i :: 0 <= i < |rs| ==> vs[i] == ToDto(rs[i])
  {
    if rs == [] then [] else [ToDto(rs[0])] + Views(rs[1..])
  }

  /**
   * A row written by saveSearchResult reads back as the response that was saved, and the stored
   * count is that response's item count.
   */
  lemma ViewOfSaved(x: SearchRecord, response: GisSearchResponse)
    requires x.resultsJson == Some(WriteValue(response)) && x.resultsCount == Some(|response.items|)
    ensures ToDto(x).results == Some(response)
    ensures ToDto(x).resultsCount == Some(|ToDto(x).results.value.items|)
  {
  }

  /** A missing or undecodable payload is not an error: the view simply lists no items. */
  lemma ViewOfUnreadable(x: SearchRecord)
    requires x.resultsJson.None? || ReadValue(x.resultsJson.value).Throws?
    ensures ToDto(x).results == Some(GisSearchResponse([]))
    ensures ToDto(x).resultsCount == x.resultsCount
  {
  }

  /** A payload that reads as JSON `null` leaves the results null while the count is kept. */
  lemma ViewOfJsonNull(x: SearchRecord)
    requires x.resultsJson.Some? && ReadValue(x.resultsJson.value).ReadsNull?
    ensures ToDto(x).results.None?
    ensures ToDto(x).resultsCount == x.resultsCount
  {
  }

  /**
   * The count column is copied, not recomputed: a row whose payload does not decode can report
   * a positive count alongside an empty result list.
   */
  lemma CountIsNotRecomputed()
    ensures exists x: SearchRecord :: ToDto(x).resultsCount == Some(3) && ToDto(x).results == Some(GisSearchResponse([]))
  {
    var x := SearchRecord(1, User(1, "n", "e", "p"), "c", "q", 0, Some(Text("{", Throws)), Some(3));
    assert ToDto(x).resultsCount == Some(3) && ToDto(x).results == Some(GisSearchResponse([]));
  }
}
