/**
 * SearchResultService: saving a search for a user and reading a user's history back as views,
 * through the repository queries.
 */
module SearchResultService {
  import opened Errors
  import opened Dto
  import opened Entities
  import opened Store
  import opened Repository
  import opened ResultView

  /**
   * saveSearchResult(userId, city, query, response): an unknown user is an error and nothing is
   * written; otherwise one row is appended holding the user, the city and query as given, the
   * serialised response and its item count, stamped with the clock value `now`.
   */
  method SaveSearchResult(db: Database, userId: int, city: string, query: string, response: GisSearchResponse, now: int)
    returns (r: Result<SearchRecord>)
    requires db.Valid()
    modifies db
    ensures db.Valid() && db.users == old(db.users)
    ensures UserById(db.users, userId).None? ==> r == Err(UserNotFoundWithId(userId)) && db.records == old(db.records)
    ensures UserById(db.users, userId).Some? ==>
              && r == Ok(SearchRecord(old(db.nextRecordId), UserById(db.users, userId).value, city, query, now,
                                      Some(WriteValue(response)), Some(|response.items|)))
              && db.records == old(db.records) + [r.value]
    ensures r.Ok? ==> GetSearchResultById(db, r.value.id) == Ok(ToDto(r.value))
    ensures r.Ok? ==> ToDto(r.value).results == Some(response) && ToDto(r.value) in GetUserSearchHistory(db, userId)
  {
    var found := UserById(db.users, userId);
    if found.None? {
      return Err(UserNotFoundWithId(userId));
    }
    var e := new SearchResultEntity(found.value, city, query, WriteValue(response), |response.items|, now);
    var saved := db.InsertRecord(e);
    r := Ok(saved);
    FindByIdWithUserFinds(db.records, saved.id, saved);
    ViewOfSaved(saved, response);
    HistoryContents(db, userId);
  }

  /** getUserSearchHistory(userId). */
  function GetUserSearchHistory(db: Database, userId: int): seq<SearchResultDto>
    reads db
  {
    Views(FindByUserIdOrderByCreatedAtDesc(db.records, userId))
  }

  /** getUserSearchHistoryWithFilters(userId, city, query); None stands for a null filter. */
  function GetUserSearchHistoryWithFilters(db: Database, userId: int, city: Option<string>, query: Option<string>): seq<SearchResultDto>
    reads db
  {
    Views(FindByUserIdWithFilters(db.records, userId, city, query))
  }

  /** getSearchResultById(id): the view of the row with that id, or the not-found error. */
  function GetSearchResultById(db: Database, id: int): (r: Result<SearchResultDto>)
    reads db
    ensures r.Err? ==> r.error == SearchResultNotFound(id)
  {
    match FindByIdWithUser(db.records, id)
    case Some(x) => Ok(ToDto(x))
    case None => Err(SearchResultNotFound(id))
  }

  /**
   * getUserSearchHistoryParallel(userId, city, query): the user's rows filtered in memory by
   * exact city and substring query, then ordered newest first; the answer is a plain list.
   */
  function GetUserSearchHistoryParallel(db: Database, userId: int, city: Option<string>, query: Option<string>): seq<SearchResultDto>
    reads db
  {
    Views(SortNewestFirst(Filter(FindByUserId(db.records, userId), x => Matches(x, city, query))))
  }

  // ---------------------------------------------------------------- what the history promises

  /** d is the view of one of the user's rows. */
  ghost predicate IsViewOf(d: SearchResultDto, rs: seq<SearchRecord>, userId: int)
  {
    exists x :: x in rs && x.user.id == userId && d == ToDto(x)
  }

  lemma ViewsNewestFirst(s: seq<SearchRecord>)
    requires NewestFirst(s)
    ensures forall i, j :: 0 <= i < j < |Views(s)| ==> Views(s)[i].createdAt >= Views(s)[j].createdAt
  {
    var h := Views(s);
    forall i, j | 0 <= i < j < |h| ensures h[i].createdAt >= h[j].createdAt {
      assert h[i] == ToDto(s[i]) && h[j] == ToDto(s[j]);
    }
  }

  lemma ViewsInclude(s: seq<SearchRecord>, x: SearchRecord)
    requires x in s
    ensures ToDto(x) in Views(s)
  {
    var k :| 0 <= k < |s| && s[k] == x;
    assert Views(s)[k] == ToDto(x);
  }

  /**
   * The history holds exactly the views of the user's rows, newest first, and only views of
   * that user.
   */
  lemma HistoryContents(db: Database, userId: int)
    ensures var h := GetUserSearchHistory(db, userId);
      && (forall i, j :: 0 <= i < j < |h| ==> h[i].createdAt >= h[j].createdAt)
      && (forall i :: 0 <= i < |h| ==> h[i].userId == userId && IsViewOf(h[i], db.records, userId))
      && (forall x :: x in db.records && x.user.id == userId ==> ToDto(x) in h)
  {
    var s := FindByUserIdOrderByCreatedAtDesc(db.records, userId);
    FindByUserIdOrderedSelects(db.records, userId);
    ViewsNewestFirst(s);
    var h := Views(s);
    forall x | x in db.records && x.user.id == userId ensures ToDto(x) in h {
      ViewsInclude(s, x);
    }
    forall i | 0 <= i < |h| ensures h[i].userId == userId && IsViewOf(h[i], db.records, userId) {
      assert s[i] in s && h[i] == ToDto(s[i]);
    }
  }

  /** Every view in the filtered history passes both filters; the matching rows all appear. */
  lemma FilteredHistoryContents(db: Database, userId: int, city: Option<string>, query: Option<string>)
    ensures var h := GetUserSearchHistoryWithFilters(db, userId, city, query);
      && (forall i, j :: 0 <= i < j < |h| ==> h[i].createdAt >= h[j].createdAt)
      && (forall i :: 0 <= i < |h| ==> h[i].userId == userId)
      && (forall i :: 0 <= i < |h| ==> city.None? || h[i].city == city.value)
      && (forall i :: 0 <= i < |h| ==> query.None? || Contains(h[i].query, query.value))
      && (forall x :: x in db.records && x.user.id == userId && Matches(x, city, query) ==> ToDto(x) in h)
  {
    var s := FindByUserIdWithFilters(db.records, userId, city, query);
    FindByUserIdWithFiltersSelects(db.records, userId, city, query);
    ViewsNewestFirst(s);
    var h := Views(s);
    forall i | 0 <= i < |h|
      ensures h[i].userId == userId
      ensures city.None? || h[i].city == city.value
      ensures query.None? || Contains(h[i].query, query.value)
    {
      assert s[i] in s && h[i] == ToDto(s[i]);
    }
    forall x | x in db.records && x.user.id == userId && Matches(x, city, query) ensures ToDto(x) in h {
      ViewsInclude(s, x);
    }
  }

  /** With both filters null, the filtered history is the plain history. */
  lemma NoFiltersIsPlainHistory(db: Database, userId: int)
    ensures GetUserSearchHistoryWithFilters(db, userId, None, None) == GetUserSearchHistory(db, userId)
  {
    NoFiltersIsHistory(db.records, userId);
  }

  /**
   * The in-memory variant answers like the filtered query: selecting after ordering equals
   * ordering after selecting, because the ordering is stable.
   */
  lemma ParallelIsFilteredHistory(db: Database, userId: int, city: Option<string>, query: Option<string>)
    ensures GetUserSearchHistoryParallel(db, userId, city, query) == GetUserSearchHistoryWithFilters(db, userId, city, query)
    ensures GetUserSearchHistoryParallel(db, userId, city, query) ==
              Views(Where(FindByUserIdOrderByCreatedAtDesc(db.records, userId), city, query))
  {
    FilteringHistoryIsFilteredQuery(db.records, userId, city, query);
  }

  /**
   * The in-memory ordering: the rows kept are those of the user passing both filters, each as
   * often as in the repository's list; they are newest first, and rows created at the same
   * time keep the repository's order.
   */
  lemma ParallelOrdering(db: Database, userId: int, city: Option<string>, query: Option<string>)
    ensures var kept := Filter(FindByUserId(db.records, userId), x => Matches(x, city, query));
      var s := SortNewestFirst(kept);
      && GetUserSearchHistoryParallel(db, userId, city, query) == Views(s)
      && multiset(s) == multiset(kept)
      && NewestFirst(s)
      && (forall x :: x in s <==> x in db.records && x.user.id == userId && Matches(x, city, query))
      && (forall t :: AtTime(s, t) == AtTime(kept, t))
  {
    var kept := Filter(FindByUserId(db.records, userId), x => Matches(x, city, query));
    SortPermutes(kept);
    SortIsNewestFirst(kept);
    SortMembers(kept);
    forall t ensures AtTime(SortNewestFirst(kept), t) == AtTime(kept, t) {
      SortIsStable(kept, t);
    }
  }

  /** The lookup by id succeeds exactly for the ids present in the table. */
  lemma GetSearchResultByIdFinds(db: Database, id: int)
    requires db.Valid()
    ensures GetSearchResultById(db, id).Ok? <==> exists i :: 0 <= i < |db.records| && db.records[i].id == id
    ensures forall x :: x in db.records && x.id == id ==> GetSearchResultById(db, id) == Ok(ToDto(x))
  {
    forall x | x in db.records && x.id == id ensures GetSearchResultById(db, id) == Ok(ToDto(x)) {
      FindByIdWithUserFinds(db.records, id, x);
    }
    if GetSearchResultById(db, id).Ok? {
      var x := FindByIdWithUser(db.records, id).value;
      var i :| 0 <= i < |db.records| && db.records[i] == x;
    }
  }
}
