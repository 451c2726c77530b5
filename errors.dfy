/**
 * The failures the core raises, one constructor per exception the Java code throws or
 * lets through, and the Result type the modelled operations return instead of throwing.
 */
module Errors {

  datatype Option<+T> = None | Some(value: T)

  datatype Error =
    /** DoubleGisApiException: the provider answered with a status other than 200. */
    | DoubleGisApi
    /** The HTTP client could not complete the exchange (connection refused, reset, ...). */
    | Transport(message: string)
    /** RuntimeException("Ошибка парсинга JSON"): the provider body is not JSON. */
    | JsonParse
    /** RuntimeException("User not found with id: " + userId), raised by saveSearchResult. */
    | UserNotFoundWithId(userId: int)
    /** Whatever the persistence layer throws while writing a row. */
    | Storage(message: string)
    /** RuntimeException("Search result not found with id: " + id). */
    | SearchResultNotFound(id: int)
    /** UserNotFoundException, raised by login. */
    | UserNotFound
    /** InvalidPasswordException, raised by login. */
    | InvalidPassword
    /** NoSuchAlgorithmException, declared by the password hash. */
    | NoSuchAlgorithm

  datatype Result<+T> = Ok(value: T) | Err(error: Error) {
    predicate IsFailure() { Err? }

    function PropagateFailure<U>(): Result<U>
      requires Err?
    {
      Err(error)
    }

    function Extract(): T
      requires Ok?
    {
      value
    }
  }

  /** Java's decimal rendering of a long, as `"..." + id` produces it. */
  function DecimalString(n: int): (s: string)
    ensures |s| >= 1
    ensures n >= 0 ==> forall i :: 0 <= i < |s| ==> '0' <= s[i] <= '9'
    ensures n < 0 ==> s[0] == '-'
  {
    if n < 0 then "-" + NaturalDigits(-n) else NaturalDigits(n)
  }

  function NaturalDigits(n: nat): (s: string)
    ensures |s| >= 1
    ensures forall i :: 0 <= i < |s| ==> '0' <= s[i] <= '9'
  {
    if n < 10 then [(48 + n) as char] else NaturalDigits(n / 10) + [(48 + n % 10) as char]
  }

  /** The value of a string of decimal digits. */
  function DigitsValue(s: string): int
  {
    if s == [] then 0 else DigitsValue(s[..|s| - 1]) * 10 + (s[|s| - 1] as int - 48)
  }

  /** The rendering of a natural number reads back as that number. */
  lemma {:induction false} NaturalDigitsRoundTrip(n: nat)
    ensures DigitsValue(NaturalDigits(n)) == n
  {
    if n >= 10 {
      NaturalDigitsRoundTrip(n / 10);
      var s := NaturalDigits(n);
      assert s[..|s| - 1] == NaturalDigits(n / 10);
    }
  }

  /**
   * The text of getMessage() for the exceptions whose text the core builds itself or passes on;
   * None for the four exceptions whose own classes (not part of this model) choose their text:
   * the provider error, user-not-found, invalid-password and the missing digest algorithm.
   */
  function Message(e: Error): (m: Option<string>)
    ensures e.UserNotFoundWithId? ==> m == Some("User not found with id: " + DecimalString(e.userId))
    ensures e.SearchResultNotFound? ==> m == Some("Search result not found with id: " + DecimalString(e.id))
    ensures m.None? <==> (e.DoubleGisApi? || e.UserNotFound? || e.InvalidPassword? || e.NoSuchAlgorithm?)
  {
    match e
    case DoubleGisApi => None
    case Transport(msg) => Some(msg)
    case JsonParse => Some("Ошибка парсинга JSON")
    case UserNotFoundWithId(id) => Some("User not found with id: " + DecimalString(id))
    case Storage(msg) => Some(msg)
    case SearchResultNotFound(id) => Some("Search result not found with id: " + DecimalString(id))
    case UserNotFound => None
    case InvalidPassword => None
    case NoSuchAlgorithm => None
  }

  /** Distinct numbers render as distinct decimal texts, negative ones included. */
  lemma DecimalStringInjective(a: int, b: int)
    requires DecimalString(a) == DecimalString(b)
    ensures a == b
  {
    if a >= 0 && b >= 0 {
      NaturalDigitsRoundTrip(a);
      NaturalDigitsRoundTrip(b);
    } else if a < 0 && b < 0 {
      assert DecimalString(a)[1..] == NaturalDigits(-a);
      assert DecimalString(b)[1..] == NaturalDigits(-b);
      NaturalDigitsRoundTrip(-a);
      NaturalDigitsRoundTrip(-b);
    }
  }

  /** The not-found messages name the id they were raised for: distinct ids give distinct texts. */
  lemma NotFoundMessagesNameTheId(a: int, b: int)
    requires Message(SearchResultNotFound(a)) == Message(SearchResultNotFound(b))
    ensures a == b
  {
    var p := "Search result not found with id: ";
    var ma := p + DecimalString(a);
    var mb := p + DecimalString(b);
    assert ma == mb;
    assert ma[|p|..] == DecimalString(a);
    assert mb[|p|..] == DecimalString(b);
    DecimalStringInjective(a, b);
  }
}
