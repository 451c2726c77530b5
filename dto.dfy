/**
 * The value types that cross the core's boundaries: the normalised provider item and response,
 * the stored form of a response, and the user projection without the password.
 */
module Dto {
  import opened Errors

  /** One place: provider `id`, `name` and `address_name`, in that order of construction. */
  datatype GisItem = GisItem(id: string, name: string, address: string)

  /** The pipeline's success value: the items in provider order. */
  datatype GisSearchResponse = GisSearchResponse(items: seq<GisItem>)

  /** `new GisSearchResponse()`: the no-argument constructor starts with an empty item list. */
  function EmptyResponse(): (r: GisSearchResponse)
    ensures |r.items| == 0
  {
    GisSearchResponse([])
  }

  /**
   * What objectMapper.readValue(text, GisSearchResponse.class) does with a text: throw, return
   * null (the text is the JSON literal `null`), or return a response.
   */
  datatype ReadOutcome = Throws | ReadsNull | Reads(response: GisSearchResponse)

  /**
   * The text kept in the `results_json` column. A row written by saveSearchResult holds the
   * serialisation of a response; any other text (a row edited outside the service, a column
   * set through setResultsJson) is kept as an opaque string together with what readValue does
   * with it.
   */
  datatype ResultsJson =
    | Serialized(response: GisSearchResponse)
    | Text(raw: string, readsAs: ReadOutcome)

  /** objectMapper.writeValueAsString(response). */
  function WriteValue(r: GisSearchResponse): ResultsJson
  {
    Serialized(r)
  }

  /**
   * objectMapper.readValue(json, GisSearchResponse.class). On a serialised response this is the
   * Jackson round trip, which the model takes as given rather than proves.
   */
  function ReadValue(j: ResultsJson): ReadOutcome
  {
    match j
    case Serialized(r) => Reads(r)
    case Text(_, d) => d
  }

  /** A registered user as the users table holds it. */
  datatype User = User(id: int, name: string, email: string, password: string)

  /** UserResponse: the user without the password. */
  datatype UserResponse = UserResponse(id: int, name: string, email: string)

  function ToUserResponse(u: User): UserResponse
  {
    UserResponse(u.id, u.name, u.email)
  }
}
