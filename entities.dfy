/**
 * SearchResultEntity, the mutable JPA record of one search, and the row value the store keeps
 * once such an entity has been written; UserEntity, the mutable user record createUser fills in.
 */
module Entities {
  import opened Errors
  import opened Dto

  /**
   * A written search_results row. `user` is the users row the record references; `resultsJson`
   * and `resultsCount` are nullable columns, hence Option.
   */
  datatype SearchRecord = SearchRecord(
    id: int,
    user: User,
    city: string,
    query: string,
    createdAt: int,
    resultsJson: Option<ResultsJson>,
    resultsCount: Option<int>)

  /**
   * A search result entity object. Fields the Java constructors may leave null are Option;
   * `createdAt` is the clock value (an integer) read at construction.
   */
  class SearchResultEntity {
    var id: Option<int>
    var user: Option<User>
    var city: Option<string>
    var query: Option<string>
    var createdAt: int
    var resultsJson: Option<ResultsJson>
    var resultsCount: Option<int>

    /** `new SearchResultEntity()`: only the creation time is set. */
    constructor Blank(now: int)
      ensures createdAt == now
      ensures id == None && user == None && city == None && query == None
      ensures resultsJson == None && resultsCount == None
    {
      id, user, city, query := None, None, None, None;
      resultsJson, resultsCount := None, None;
      createdAt := now;
    }

    /** The five-argument constructor: stores its arguments as given and the creation time; no id. */
    constructor (user: User, city: string, query: string, resultsJson: ResultsJson, resultsCount: int, now: int)
      ensures this.user == Some(user) && this.city == Some(city) && this.query == Some(query)
      ensures this.resultsJson == Some(resultsJson) && this.resultsCount == Some(resultsCount)
      ensures createdAt == now && id == None
    {
      this.id := None;
      this.user := Some(user);
      this.city := Some(city);
      this.query := Some(query);
      this.resultsJson := Some(resultsJson);
      this.resultsCount := Some(resultsCount);
      this.createdAt := now;
    }

    method SetId(v: int)
      modifies this`id
      ensures id == Some(v)
    {
      id := Some(v);
    }

    method SetUser(u: User)
      modifies this`user
      ensures user == Some(u)
    {
      user := Some(u);
    }

    method SetCity(c: string)
      modifies this`city
      ensures city == Some(c)
    {
      city := Some(c);
    }

    method SetQuery(q: string)
      modifies this`query
      ensures query == Some(q)
    {
      query := Some(q);
    }

    method SetCreatedAt(t: int)
      modifies this`createdAt
      ensures createdAt == t
    {
      createdAt := t;
    }

    method SetResultsJson(j: ResultsJson)
      modifies this`resultsJson
      ensures resultsJson == Some(j)
    {
      resultsJson := Some(j);
    }

    method SetResultsCount(n: int)
      modifies this`resultsCount
      ensures resultsCount == Some(n)
    {
      resultsCount := Some(n);
    }

    /** The non-null columns (user, city, query) are all set, so the entity can be written. */
    predicate Writable()
      reads this
    {
      user.Some? && city.Some? && query.Some?
    }

    /** The row the entity is written as, under the given id. */
    function AsRecord(withId: int): (r: SearchRecord)
      requires Writable()
      reads this
      ensures r.id == withId && Some(r.user) == user && Some(r.city) == city && Some(r.query) == query
      ensures r.createdAt == createdAt && r.resultsJson == resultsJson && r.resultsCount == resultsCount
    {
      SearchRecord(withId, user.value, city.value, query.value, createdAt, resultsJson, resultsCount)
    }
  }

  /** A user entity object: the id is None until the users table assigns one. */
  class UserEntity {
    var id: Option<int>
    var name: string
    var email: string
    var password: string

    constructor (name: string, email: string, password: string)
      ensures this.id == None && this.name == name && this.email == email && this.password == password
    {
      this.id := None;
      this.name := name;
      this.email := email;
      this.password := password;
    }

    method SetId(v: int)
      modifies this`id
      ensures id == Some(v)
    {
      id := Some(v);
    }

    method SetPassword(p: string)
      modifies this`password
      ensures password == p
    {
      password := p;
    }
  }
}
