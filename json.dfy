/**
 * The JSON tree the provider body is read into, and the three JsonNode operations the item
 * extraction uses: path(name), asText() and iteration over a node's children. Parsing text into
 * the tree is not part of this model: a body arrives either as a tree or as malformed text.
 */
module Json {

  /** A JSON value as the parser builds it. Object keys are distinct in a parsed tree. */
  datatype Json =
    | JNull
    | JBool(b: bool)
    | JNumber(text: string)        // a number, kept as the text asText() renders it
    | JString(s: string)
    | JArray(elements: seq<Json>)
    | JObject(members: seq<Member>)

  datatype Member = Member(key: string, value: Json)

  /** A JsonNode: a value, or the MissingNode that path() returns when there is nothing there. */
  datatype Node = Missing | Present(value: Json)

  function Lookup(members: seq<Member>, key: string): (n: Node)
    ensures n.Present? <==> exists i :: 0 <= i < |members| && members[i].key == key
    ensures n.Present? ==> Member(key, n.value) in members
  {
    if members == [] then Missing
    else if members[0].key == key then Present(members[0].value)
    else Lookup(members[1..], key)
  }

  /** node.path(key): the member of an object, or MissingNode for an absent key or a non-object. */
  function Path(n: Node, key: string): Node
  {
    match n
    case Present(JObject(ms)) => Lookup(ms, key)
    case _ => Missing
  }

  /** node.asText(): text for scalars, "" for MissingNode and for arrays and objects. */
  function AsText(n: Node): string
  {
    match n
    case Missing => ""
    case Present(JNull) => "null"
    case Present(JBool(b)) => if b then "true" else "false"
    case Present(JNumber(t)) => t
    case Present(JString(s)) => s
    case Present(JArray(_)) => ""
    case Present(JObject(_)) => ""
  }

  function MemberValues(ms: seq<Member>): (vs: seq<Json>)
    ensures |vs| == |ms|
    ensures forall i :: 0 <= i < |ms| ==> vs[i] == ms[i].value
  {
    if ms == [] then [] else [ms[0].value] + MemberValues(ms[1..])
  }

  /** What `for (JsonNode item : node)` visits: array elements, object member values, else nothing. */
  function Elements(n: Node): seq<Json>
  {
    match n
    case Present(JArray(es)) => es
    case Present(JObject(ms)) => MemberValues(ms)
    case _ => []
  }
}
