# Company search core, modelled in Dafny

This is a model of the sequential logic inside a Spring/Reactor service. The service searches the
2GIS catalogue for companies in a city, stores each search in a per-user history, and registers
users and logs them in. The model covers six parts:

- **The search pipeline, `SearchService.search`.**
  - It form-urlencodes `city + " " + name` into the `q` parameter. The encoding is
    application/x-www-form-urlencoded (section 5.2 of the WHATWG URL Standard), using UTF-8 as
    defined in RFC 3629.
  - It builds the provider URL.
  - Any status other than 200 is rejected.
  - It reads `result.items` out of the JSON tree.
  - It hands the parsed response to the save step and emits it only once the save has
    succeeded.
- **The history store.** This covers `SearchResultEntity` (a class with its constructors and
  setters), the four JPQL queries of `SearchResultRepository` (modelled as functions over the
  table), and `SearchResultService`.
  - Saving appends one row.
  - The history reads select rows by user, filter them by exact city and by substring query,
    order them newest first with a stable sort, and project them to `SearchResultDto`.
- **The `SearchResultDto` projection.** A null payload, or one that does not decode, gives an
  empty response. A payload that reads as JSON `null` leaves the results null. A payload the
  service wrote is taken to decode back into the response it serialised.
- **`UserService`.**
  - `createUser` replaces the password with its hash and saves the user.
  - `login` looks the user up by email and compares the stored hash with the hash of the given
    password.
- **`GlobalExceptionHandler`**, with its three error-to-status mappings.
- **`GisSearchResponse` and `UserResponse`**, as plain datatypes.

Modules, one file each:

| module | role |
|---|---|
| `Errors` | error kinds, `Result`, and the texts of the not-found messages |
| `UrlEncoding` | `URLEncoder.encode` with UTF-8, plus a reference decoder and the round trip |
| `Json` | the JsonNode operations `path`, `asText` and iteration |
| `Dto` | `GisItem`, `GisSearchResponse`, the stored payload, `User`, `UserResponse` |
| `Entities` | the `SearchResultEntity` and `UserEntity` classes, and the row value |
| `Store` | the `Database` class, with the users and search_results tables |
| `Repository` | the JPQL queries |
| `ResultView` | `SearchResultDto` |
| `SearchResultService` | saving, the history reads, lookup by id |
| `UserService` | registration and login |
| `SearchService` | the search pipeline |
| `ExceptionHandler` | the error-to-status mappings |

The model takes these as inputs instead of performing them:

- **The HTTP exchange** (`SearchService.Fetch`). It is a status and a body, or a failure below
  HTTP. The body is either no body, malformed text, or an already parsed JSON tree.
- **The save step of the pipeline.** It is a function from the call made to that call's result.
  `SearchResultService.SaveSearchResult` is the model of what that step does.
- **The clock.** It is an integer `now`.
- **The password hash.** It is a function `string -> Option<string>`, where `None` stands for
  `NoSuchAlgorithmException`.
- **The text of an exception's message**, passed to the exception handler.

Behaviour of the code worth knowing:

- **Status check.** Every status other than 200, including 201 and 204, is a provider error.
- **Transport failures.** A failure below HTTP (connection refused, reset) is not a
  `DoubleGisApiException`, so no handler maps it.
- **Not-found errors.** The history-side not-found errors are plain `RuntimeException`s, so no
  handler maps them to 404.
- **An empty body on a 200 response.** `bodyToMono(String.class)` emits nothing, so the parse
  and save stages never run and the search completes with no value (`EmptyCompletion`).
- **`asText()`.** A JSON `null` gives `"null"`. An absent field, an array or object value, and
  an empty string all give `""`.

## Model

| member | source | states |
|---|---|---|
| Errors.Message | src/main/java/_gis/company_search/service/SearchResultService.java:41-42 | the user-not-found text is "User not found with id: " followed by the id in decimal; the search-result-not-found text is built the same way; the message is absent exactly for the four exceptions whose classes choose their own text |
| Errors.NotFoundMessagesNameTheId | src/main/java/_gis/company_search/service/SearchResultService.java:84-85 | two not-found messages are equal only when raised for the same id, negative ids included |
| Errors.DecimalStringInjective | src/main/java/_gis/company_search/service/SearchResultService.java:85 | distinct integers, of either sign, have distinct decimal texts |
| UrlEncoding.DecodeEncode | src/main/java/_gis/company_search/service/SearchService.java:56 | form-decoding the encoded text recovers exactly the original text |
| UrlEncoding.EncodeInjective | src/main/java/_gis/company_search/service/SearchService.java:56 | distinct search texts encode to distinct strings |
| UrlEncoding.EncodeDecodesToUtf8 | src/main/java/_gis/company_search/service/SearchService.java:56 | the encoded text is a well-formed sequence of unreserved characters, `+` and `%XY` triples, and it decodes to the UTF-8 bytes of the input |
| UrlEncoding.Utf8RoundTrip | src/main/java/_gis/company_search/service/SearchService.java:56 | the UTF-8 encoding of a string of scalar values decodes back to it |
| UrlEncoding.EncodeAlphabet | src/main/java/_gis/company_search/service/SearchService.java:56 | every character of the encoded text is an ASCII letter, a digit, `.`, `-`, `*`, `_`, `+`, `%` or an uppercase hex digit |
| UrlEncoding.EncodeHasNoDelimiters | src/main/java/_gis/company_search/service/SearchService.java:56 | the encoded text contains no `&`, `=`, `#` or space |
| UrlEncoding.EncodeExamples | src/test/java/_gis/company_search/service/SearchServiceTest.java:272-280 | `&` encodes to `%26`, `М` to `%D0%9C`, and a space to `+` |
| Dto.EmptyResponse | src/main/java/_gis/company_search/dto/GisSearchResponse.java:10-12 | the no-argument response has no items |
| Entities.SearchResultEntity.Blank | src/main/java/_gis/company_search/entity/SearchResultEntity.java:37-39 | the creation time is the clock value; every other field, the id included, is unset |
| Entities.SearchResultEntity.constructor | src/main/java/_gis/company_search/entity/SearchResultEntity.java:41-48 | user, city, query, payload and count are stored as passed; the creation time is the clock value; no id is set |
| Entities.SearchResultEntity.SetId | src/main/java/_gis/company_search/entity/SearchResultEntity.java:54-56 | sets the id and no other field |
| Entities.SearchResultEntity.SetUser | src/main/java/_gis/company_search/entity/SearchResultEntity.java:62-64 | sets the user and no other field |
| Entities.SearchResultEntity.SetCity | src/main/java/_gis/company_search/entity/SearchResultEntity.java:70-72 | sets the city and no other field |
| Entities.SearchResultEntity.SetQuery | src/main/java/_gis/company_search/entity/SearchResultEntity.java:78-80 | sets the query and no other field |
| Entities.SearchResultEntity.SetCreatedAt | src/main/java/_gis/company_search/entity/SearchResultEntity.java:86-88 | sets the creation time and no other field |
| Entities.SearchResultEntity.SetResultsJson | src/main/java/_gis/company_search/entity/SearchResultEntity.java:94-96 | sets the payload and no other field |
| Entities.SearchResultEntity.SetResultsCount | src/main/java/_gis/company_search/entity/SearchResultEntity.java:102-104 | sets the count and no other field |
| Entities.SearchResultEntity.AsRecord | src/main/java/_gis/company_search/entity/SearchResultEntity.java:14-35 | the written row holds exactly the entity's fields, under the id the table assigns |
| Entities.UserEntity.SetPassword | src/main/java/_gis/company_search/service/UserService.java:26 | replaces the password and no other field |
| Store.FirstMatch | src/main/java/_gis/company_search/repository/SearchResultRepository.java:20-21 | a value found is in the list and satisfies the condition; nothing is found exactly when no element does |
| Store.FirstMatchAt | src/main/java/_gis/company_search/repository/SearchResultRepository.java:20-21 | the value found is the first element satisfying the condition |
| Store.UserById | src/main/java/_gis/company_search/service/SearchResultService.java:41 | a user found has the id asked for; none is found exactly when no row has that id |
| Store.UserByEmail | src/main/java/_gis/company_search/service/UserService.java:33 | a user found has the email asked for; none is found exactly when no row has that email |
| Store.Database.InsertRecord | src/main/java/_gis/company_search/service/SearchResultService.java:54 | saving a new entity assigns the next id, sets it on the entity, and appends exactly that row; the users and the existing rows are unchanged, and ids stay increasing |
| Store.Database.SaveUser | src/main/java/_gis/company_search/service/UserService.java:27 | an entity whose id names a row replaces that row in place; any other entity is appended under the next id, which is set on it; the search rows are unchanged |
| Repository.ContainsIff | src/main/java/_gis/company_search/repository/SearchResultRepository.java:25 | the substring test holds exactly when the query occurs at some position of the stored text |
| Repository.FindByUserId | src/main/java/_gis/company_search/repository/SearchResultRepository.java:14-15 | a row is returned exactly when it belongs to the user |
| Repository.FindByUserIdOrderedSelects | src/main/java/_gis/company_search/repository/SearchResultRepository.java:17-18 | the same rows as findByUserId, each as often, ordered newest first |
| Repository.SortIsNewestFirst | src/main/java/_gis/company_search/repository/SearchResultRepository.java:17-18 | the ordering puts every row at or after the rows created later |
| Repository.SortPermutes | src/main/java/_gis/company_search/repository/SearchResultRepository.java:17-18 | the ordering is a permutation of its input |
| Repository.SortIsStable | src/main/java/_gis/company_search/service/SearchResultService.java:97 | rows with equal creation time keep their input order |
| Repository.FilterCommutesWithSort | src/main/java/_gis/company_search/service/SearchResultService.java:94-97 | filtering and then ordering gives the same list as ordering and then filtering |
| Repository.FindByIdWithUser | src/main/java/_gis/company_search/repository/SearchResultRepository.java:20-21 | a row returned has the id asked for; nothing is returned exactly when no row has that id |
| Repository.FindByIdWithUserFinds | src/main/java/_gis/company_search/repository/SearchResultRepository.java:20-21 | when ids are increasing, the lookup returns a row exactly when that row is in the table with that id |
| Repository.FindByUserIdWithFiltersSelects | src/main/java/_gis/company_search/repository/SearchResultRepository.java:23-26 | a row is returned exactly when it belongs to the user, matches the city when one is given, and contains the query when one is given; the result is newest first |
| Repository.NoFiltersIsHistory | src/main/java/_gis/company_search/repository/SearchResultRepository.java:24-25 | with both filters null, the filtered query equals the ordered query |
| Repository.FilteringHistoryIsFilteredQuery | src/main/java/_gis/company_search/repository/SearchResultRepository.java:23-26 | filtering the ordered history in memory gives exactly the filtered query's list |
| ResultView.ToDto | src/main/java/_gis/company_search/dto/SearchResultDto.java:22-29 | id, user id, user name, user email, city, query, creation time and count are copied unchanged |
| ResultView.DecodeOrEmpty | src/main/java/_gis/company_search/dto/SearchResultDto.java:31-35 | a payload that decodes gives the decoded response; a null column or a payload on which reading throws gives the empty response; the results are null exactly when the payload reads as JSON `null` |
| ResultView.Views | src/main/java/_gis/company_search/service/SearchResultService.java:62-64 | one view per row, in the rows' order |
| ResultView.ViewOfSaved | src/main/java/_gis/company_search/dto/SearchResultDto.java:32 | a row written by the service reads back as the saved response, and its count equals the number of items read |
| ResultView.ViewOfUnreadable | src/main/java/_gis/company_search/dto/SearchResultDto.java:33-35 | a null column or an undecodable payload gives a response with no items, the count is kept, and construction does not fail |
| ResultView.ViewOfJsonNull | src/main/java/_gis/company_search/dto/SearchResultDto.java:32 | a payload that reads as JSON `null` leaves the results null and keeps the count |
| ResultView.CountIsNotRecomputed | src/main/java/_gis/company_search/dto/SearchResultDto.java:29-35 | a view can report a count of 3 alongside an empty, non-null response |
| SearchResultService.SaveSearchResult | src/main/java/_gis/company_search/service/SearchResultService.java:34-56 | an unknown user gives the user-not-found error and nothing is written; otherwise exactly one row is appended, holding the looked-up user, the city and query as given, the serialised response, its item count and the clock value; the users are unchanged; the saved row is then found by its id and appears in the user's history with the saved response |
| SearchResultService.HistoryContents | src/main/java/_gis/company_search/service/SearchResultService.java:58-66 | the history is newest first, holds only views of that user's rows, and holds a view of every such row |
| SearchResultService.FilteredHistoryContents | src/main/java/_gis/company_search/service/SearchResultService.java:68-79 | every view in the filtered history is of the user, matches the city filter and contains the query filter; it is newest first; every matching row appears |
| SearchResultService.NoFiltersIsPlainHistory | src/main/java/_gis/company_search/service/SearchResultService.java:74 | with both filters null, the filtered history is the plain history |
| SearchResultService.GetSearchResultById | src/main/java/_gis/company_search/service/SearchResultService.java:81-88 | the only failure is the not-found error for that id |
| SearchResultService.GetSearchResultByIdFinds | src/main/java/_gis/company_search/service/SearchResultService.java:84-85 | the lookup succeeds exactly when some row has the id, and then returns that row's view |
| SearchResultService.ParallelIsFilteredHistory | src/main/java/_gis/company_search/service/SearchResultService.java:90-100 | the in-memory variant returns the same list as the filtered query, and the same list as filtering the ordered history |
| SearchResultService.ParallelOrdering | src/main/java/_gis/company_search/service/SearchResultService.java:94-99 | the rows kept are exactly those of the user that pass both filters; the list is a permutation of them, newest first, and rows created at the same time keep the repository's order |
| UserService.CreateUser | src/main/java/_gis/company_search/service/UserService.java:23-29 | the password is hashed once; when hashing fails nothing is saved or changed; otherwise the entity's password is replaced by the hash and its id is set, its name and email are untouched, and the saved user has the entity's name, email and the hash and is found under its id; an entity whose id names a row replaces exactly that row, any other is appended under the next id; the search rows are unchanged; a newly registered email then logs in with the original password |
| UserService.Login | src/main/java/_gis/company_search/service/UserService.java:31-47 | an unknown email fails with the user-not-found error before any hashing; otherwise the password is hashed exactly once; the login succeeds exactly when the stored password equals the hash, and then returns exactly the row found by that email; it fails with the invalid-password error exactly when they differ |
| UserService.WrongPasswordRefused | src/main/java/_gis/company_search/service/UserService.java:39-43 | a password whose hash differs from one that logs in is refused with the invalid-password error |
| SearchService.UrlCarriesQuery | src/main/java/_gis/company_search/service/SearchService.java:60-61 | after the base URL and `/items?q=`, the text up to the first `&` is the encoded query and decodes back to `city + " " + name`; the URL ends with the fixed parameters and the key, verbatim |
| SearchService.UrlDistinguishesQueries | src/main/java/_gis/company_search/service/SearchService.java:56-61 | different search texts produce different request URLs |
| SearchService.ExtractItems | src/main/java/_gis/company_search/service/SearchService.java:88-105 | one item per node under `result.items`, in order, each taking the text of `id`, `name` and `address_name` |
| SearchService.MissingItemsMeansNone | src/main/java/_gis/company_search/service/SearchService.java:93-95 | with `result` or `result.items` absent, the response has no items |
| SearchService.ScalarItemsMeansNone | src/main/java/_gis/company_search/service/SearchService.java:93-95 | a scalar or null under `items` yields no items |
| SearchService.AbsentFieldIsEmpty | src/main/java/_gis/company_search/service/SearchService.java:96-99 | an item lacking `name` and `address_name` still yields an item, with those fields empty |
| SearchService.StringFieldsAreCopied | src/main/java/_gis/company_search/service/SearchService.java:96-100 | an item whose three fields are strings yields exactly those strings |
| SearchService.Search | src/main/java/_gis/company_search/service/SearchService.java:51-119 | the request URL is built from the encoded query; a transport failure or a status other than 200 fails without a save call; an empty body completes with no value; a malformed body fails with the parse error without a save call; a parsed body leads to exactly one save call with the user id, the city, the name and the parsed response; the pipeline then emits that response if the save succeeds, and fails with the save's own error if it does not |
| ExceptionHandler.Handle | src/main/java/_gis/company_search/exception/GlobalExceptionHandler.java:11-26 | user-not-found gives 404, invalid-password 401 and the provider error 503, each with the message as body; exactly these three kinds are mapped |
| ExceptionHandler.UnmappedErrors | src/main/java/_gis/company_search/exception/GlobalExceptionHandler.java:9-27 | the history-side not-found errors, the parse error and transport failures get no mapping |

## Left out

- **Logging.** `AsyncLogger`, its executor and every `logger` call are left out. They perform
  I/O and cannot change an outcome.
- **Reactor scheduling.** `subscribeOn`, `Schedulers` and the executor configuration are left
  out. Each pipeline is sequential composition. The parallel stream is modelled by its result,
  which is deterministic because the stream is ordered.
- **Jackson.** `readTree`, `writeValueAsString` and `readValue` are not modelled. A body arrives
  already parsed, or as malformed text. A stored payload is either the serialisation of a
  response or opaque text whose read may throw, give JSON `null`, or give a response. Object
  keys in a parsed tree are taken to be distinct.
- Dto.ReadValue: the model assumes that `readValue(writeValueAsString(r))` gives back `r` (the
  Jackson round trip) by defining the read of a serialised response that way; this is not
  proved.
- **The HTTP client.** `WebClient`, `WebClientConfig` and `URI.create` are left out. The URL is
  modelled as a string. `URI.create` rejecting a malformed base URL or key is not modelled.
- **`HashService`.** SHA-256 and Base64 are foreign calls. The model treats the hash as an
  uninterpreted function.
- **The clock.** `LocalDateTime.now()` becomes the integer parameter `now`.
- **JPA.** `@Transactional`, lazy loading of the user and the database's write failures are left
  out. `SearchRecord` keeps a copy of the user row, so a later change to the user is not seen
  through an old record.
- **Entity aliasing.** `Database` keeps value snapshots of the rows. A setter called on a
  `SearchResultEntity` after it was saved does not reach the table.
- **Repository.FindByUserIdWithFilters.** `LIKE %:query%` is modelled as a plain substring
  test. The SQL wildcards `%` and `_` inside a user-supplied query, and database collation, are
  not modelled.
- **Repository.SortNewestFirst.** The order of rows with equal `createdAt` is unspecified in
  SQL. The model fixes it to table order (a stable sort), which is also what `sorted` does in
  the in-memory variant.
- **Repository.FindByUserId.** The JPQL has no `ORDER BY`. The model returns table order.
- **`UserRepository` and `UserEntity`.** These sources are not part of this model. The users
  table is a sequence in insertion order. Uniqueness of emails is not enforced.
- Store.UserByEmail: returning the earliest row with the email is the model's choice. A Spring
  Data finder returning `Optional` throws `IncorrectResultSizeDataAccessException` when several
  rows match; that error is not modelled.
- **Custom exception classes.** `UserNotFoundException`, `InvalidPasswordException` and
  `DoubleGisApiException` are not part of this model, so their message texts are not known. The
  handler takes the message as a parameter.
- **`JsonProcessingException` from `writeValueAsString`.** It cannot occur for a
  `GisSearchResponse`, so saving has no serialisation error path.
- **Java `null`.** Passing `null` to the entity setters or to the services is not modelled.
  Optional columns and filters are `Option` values.
- **Unpaired UTF-16 surrogates.** The encoder takes its input as Unicode scalar values, so what
  `URLEncoder` does with a lone surrogate is not modelled.
- **Setters and getters of `SearchResultDto` and `UserResponse`.** They are field writes on
  plain value types. In the model they are datatype updates.
- **`SearchController`, `UserController` and `HashServiceTest`.** These are routing, delegation
  and tests of the foreign hash.
