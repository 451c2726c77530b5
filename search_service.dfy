/**
 * SearchService.search: encode "city name", build the provider URL, check the status, read the
 * items out of the JSON body, hand the response to the save step and emit it once saved.
 * The HTTP exchange is an input (`Fetch`), and so is the save step (`save`), whose own
 * behaviour is SearchResultService.SaveSearchResult.
 */
module SearchService {
  import opened Errors
  import opened Json
  import opened Dto
  import opened Entities
  import opened UrlEncoding

  /** The two configured properties: the provider's base URL and the API key. */
  datatype Config = Config(apiUrl: string, apiKey: string)

  /** What bodyToMono(String) yields: nothing, text the JSON parser rejects, or a parsed tree. */
  datatype Body = NoBody | Malformed | Document(root: Json)

  /** The outcome of the GET: a response with its status, or a failure below HTTP. */
  datatype Fetch = Responded(status: int, body: Body) | TransportFailure(message: string)

  /** How the returned Mono ends: one response, completion with no value, or an error. */
  datatype SearchOutcome = Emitted(response: GisSearchResponse) | EmptyCompletion | Failed(error: Error)

  /** The arguments of the one saveSearchResult call the pipeline makes. */
  datatype SaveCall = SaveCall(userId: int, city: string, query: string, response: GisSearchResponse)

  // ---------------------------------------------------------------- the request

  /** URLEncoder.encode(city + " " + name, UTF-8). */
  function EncodedQuery(city: string, name: string): string
  {
    Encode(city + " " + name)
  }

  const QueryPrefix: string := "/items?q="
  /** The parameters after q=, "&type=branch&page_size=10&page=1&key=", split at their first '&'. */
  const OtherParameters: string := "type=branch&page_size=10&page=1&key="
  const FixedParameters: string := "&" + OtherParameters

  function RequestUrl(cfg: Config, encoded: string): string
  {
    cfg.apiUrl + QueryPrefix + encoded + FixedParameters + cfg.apiKey
  }

  /** The text before the first occurrence of c, or all of t when c does not occur. */
  function Before(t: string, c: char): (r: string)
    ensures r <= t
    ensures c !in r
    ensures |r| < |t| ==> t[|r|] == c
  {
    if t == [] || t[0] == c then [] else [t[0]] + Before(t[1..], c)
  }

  lemma {:induction false} BeforeDelimiter(a: string, c: char, b: string)
    requires c !in a
    ensures Before(a + [c] + b, c) == a
  {
    if a != [] {
      assert (a + [c] + b)[1..] == a[1..] + [c] + b;
      BeforeDelimiter(a[1..], c, b);
    }
  }

  /** Any '&'-free value placed after q= is read back up to the first '&'. */
  lemma QueryField(base: string, e: string, key: string)
    requires '&' !in e
    ensures var url := base + QueryPrefix + e + FixedParameters + key;
      && base + QueryPrefix <= url
      && Before(url[|base + QueryPrefix|..], '&') == e
      && url[|url| - |FixedParameters + key|..] == FixedParameters + key
  {
    var rest := OtherParameters + key;
    var url := base + QueryPrefix + e + FixedParameters + key;
    assert url == (base + QueryPrefix) + (e + ['&'] + rest);
    BeforeDelimiter(e, '&', rest);
    assert url == (base + QueryPrefix + e) + (FixedParameters + key);
  }

  /**
   * The URL carries the search text faithfully: after the base URL and "/items?q=", the value up
   * to the first '&' is the encoded text, it decodes back to "city name", and the URL ends with
   * the fixed parameters and the key.
   */
  lemma UrlCarriesQuery(cfg: Config, city: string, name: string)
    ensures var url := RequestUrl(cfg, EncodedQuery(city, name));
      var start := |cfg.apiUrl + QueryPrefix|;
      && cfg.apiUrl + QueryPrefix <= url
      && Before(url[start..], '&') == EncodedQuery(city, name)
      && Decode(Before(url[start..], '&')) == Some(city + " " + name)
      && url[|url| - |FixedParameters + cfg.apiKey|..] == FixedParameters + cfg.apiKey
  {
    EncodeHasNoDelimiters(city + " " + name);
    QueryField(cfg.apiUrl, EncodedQuery(city, name), cfg.apiKey);
    DecodeEncode(city + " " + name);
  }

  /** Different search texts give different URLs for the same configuration. */
  lemma UrlDistinguishesQueries(cfg: Config, city: string, name: string, city': string, name': string)
    requires city + " " + name != city' + " " + name'
    ensures RequestUrl(cfg, EncodedQuery(city, name)) != RequestUrl(cfg, EncodedQuery(city', name'))
  {
    UrlCarriesQuery(cfg, city, name);
    UrlCarriesQuery(cfg, city', name');
  }

  // ---------------------------------------------------------------- reading the body

  /** The nodes `root.path("result").path("items")` iterates over. */
  function ItemNodes(root: Json): seq<Json>
  {
    Elements(Path(Path(Present(root), "result"), "items"))
  }

  /** One provider item: `id`, `name` and `address_name` read with asText(). */
  function ToItem(n: Json): GisItem
  {
    GisItem(AsText(Path(Present(n), "id")), AsText(Path(Present(n), "name")), AsText(Path(Present(n), "address_name")))
  }

  /** resp lists one item per iterated node, in iteration order. */
  ghost predicate ParsedFrom(resp: GisSearchResponse, root: Json)
  {
    && |resp.items| == |ItemNodes(root)|
    && forall i :: 0 <= i < |resp.items| ==> resp.items[i] == ToItem(ItemNodes(root)[i])
  }

  /** The parsing loop: one GisItem per node under result.items, in order. */
  method ExtractItems(root: Json) returns (resp: GisSearchResponse)
    ensures |resp.items| == |ItemNodes(root)|
    ensures forall i :: 0 <= i < |resp.items| ==> resp.items[i] == ToItem(ItemNodes(root)[i])
  {
    var nodes := ItemNodes(root);
    var items: seq<GisItem> := [];
    for i := 0 to |nodes|
      invariant |items| == i
      invariant forall k :: 0 <= k < i ==> items[k] == ToItem(nodes[k])
    {
      items := items + [ToItem(nodes[i])];
    }
    resp := GisSearchResponse(items);
  }

  /** A body without a `result` object, or whose `result` has no `items`, lists no items. */
  lemma MissingItemsMeansNone(root: Json, resp: GisSearchResponse)
    requires ParsedFrom(resp, root)
    requires Path(Present(root), "result").Missing? || Path(Path(Present(root), "result"), "items").Missing?
    ensures resp.items == []
  {
  }

  /** A scalar or null under `items` is not iterated: no items. */
  lemma ScalarItemsMeansNone(root: Json, resp: GisSearchResponse)
    requires ParsedFrom(resp, root)
    requires var items := Path(Path(Present(root), "result"), "items");
      items.Present? && !items.value.JArray? && !items.value.JObject?
    ensures resp.items == []
  {
  }

  /** A field an item lacks reads as the empty string, so the item is still listed. */
  lemma AbsentFieldIsEmpty(n: Json)
    requires Path(Present(n), "name").Missing? && Path(Present(n), "address_name").Missing?
    ensures ToItem(n).name == "" && ToItem(n).address == ""
    ensures ToItem(n).id == AsText(Path(Present(n), "id"))
  {
  }

  /** An item whose three fields are strings yields exactly those strings. */
  lemma StringFieldsAreCopied(id: string, name: string, address: string)
    ensures ToItem(JObject([Member("id", JString(id)), Member("name", JString(name)),
                            Member("address_name", JString(address))])) == GisItem(id, name, address)
  {
    var ms := [Member("id", JString(id)), Member("name", JString(name)), Member("address_name", JString(address))];
    assert "name" != "id" && "address_name" != "id" && "address_name" != "name";
    assert Lookup(ms, "name") == Lookup(ms[1..], "name");
    assert Lookup(ms, "address_name") == Lookup(ms[1..][1..], "address_name");
  }

  // ---------------------------------------------------------------- the pipeline

  /**
   * search(userId, city, name). `url` is the request URL; `saveCall` is the save step's call,
   * made only when a body was read; `save` gives that step's result.
   */
  method Search(cfg: Config, userId: int, city: string, name: string, fetch: Fetch,
                save: SaveCall -> Result<SearchRecord>)
    returns (url: string, saveCall: Option<SaveCall>, outcome: SearchOutcome)
    ensures url == RequestUrl(cfg, EncodedQuery(city, name))
    ensures fetch.TransportFailure? ==> saveCall == None && outcome == Failed(Transport(fetch.message))
    ensures fetch.Responded? && fetch.status != 200 ==> saveCall == None && outcome == Failed(DoubleGisApi)
    ensures fetch == Responded(200, NoBody) ==> saveCall == None && outcome == EmptyCompletion
    ensures fetch == Responded(200, Malformed) ==> saveCall == None && outcome == Failed(JsonParse)
    ensures fetch.Responded? && fetch.status == 200 && fetch.body.Document? ==>
              && saveCall.Some?
              && saveCall.value.userId == userId && saveCall.value.city == city && saveCall.value.query == name
              && ParsedFrom(saveCall.value.response, fetch.body.root)
              && outcome == (match save(saveCall.value)
                             case Ok(_) => Emitted(saveCall.value.response)
                             case Err(e) => Failed(e))
  {
    var encoded := EncodedQuery(city, name);
    url := RequestUrl(cfg, encoded);
    saveCall := None;
    match fetch
    case TransportFailure(m) =>
      outcome := Failed(Transport(m));
    case Responded(status, body) =>
      if status != 200 {
        outcome := Failed(DoubleGisApi);
      } else {
        match body
        case NoBody =>
          outcome := EmptyCompletion;
        case Malformed =>
          outcome := Failed(JsonParse);
        case Document(root) =>
          var response := ExtractItems(root);
          var call := SaveCall(userId, city, name, response);
          saveCall := Some(call);
          match save(call)
          case Ok(_) =>
            outcome := Emitted(response);
          case Err(e) =>
            outcome := Failed(e);
      }
  }
}
