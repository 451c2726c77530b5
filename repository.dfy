/**
 * SearchResultRepository: the four JPQL queries as functions over the rows of search_results
 * in insertion order. `ORDER BY s.createdAt DESC` is a stable sort, newest first.
 */
module Repository {
  import opened Errors
  import opened Dto
  import opened Entities
  import Store

  // ---------------------------------------------------------------- selection

  /** The rows satisfying p, in table order. */
  function Filter(rs: seq<SearchRecord>, p: SearchRecord -> bool): (r: seq<SearchRecord>)
    ensures forall x :: x in r <==> x in rs && p(x)
    ensures |r| <= |rs|
  {
    if rs == [] then [] else (if p(rs[0]) then [rs[0]] else []) + Filter(rs[1..], p)
  }

  /** `s.query LIKE %:query%`, read as a plain substring test (Java's String.contains). */
  function Contains(text: string, part: string): bool
  {
    part <= text || (|text| > 0 && Contains(text[1..], part))
  }

  /** part occurs in text starting at position i. */
  predicate OccursAt(text: string, part: string, i: int)
  {
    0 <= i <= |text| - |part| && text[i..i + |part|] == part
  }

  lemma {:induction false} OccursAtContains(text: string, part: string, i: int)
    requires OccursAt(text, part, i)
    ensures Contains(text, part)
    decreases i
  {
    if i == 0 {
      assert text[..|part|] == part;
    } else {
      assert text[1..][i - 1..i - 1 + |part|] == text[i..i + |part|];
      OccursAtContains(text[1..], part, i - 1);
    }
  }

  /** The recursive test agrees with the positional definition of a substring, both ways. */
  lemma {:induction false} ContainsIff(text: string, part: string)
    ensures Contains(text, part) <==> exists i :: OccursAt(text, part, i)
  {
    if exists i :: OccursAt(text, part, i) {
      var i :| OccursAt(text, part, i);
      OccursAtContains(text, part, i);
    }
    if part <= text {
      assert text[0..|part|] == part;
      assert OccursAt(text, part, 0);
    } else if |text| > 0 {
      ContainsIff(text[1..], part);
      if Contains(text[1..], part) {
        var i :| OccursAt(text[1..], part, i);
        assert text[i + 1..i + 1 + |part|] == text[1..][i..i + |part|];
        assert OccursAt(text, part, i + 1);
      }
    }
  }

  /** The query's filters: an absent filter imposes nothing; city is exact, query a substring. */
  predicate Matches(x: SearchRecord, city: Option<string>, query: Option<string>)
  {
    (city.None? || x.city == city.value) && (query.None? || Contains(x.query, query.value))
  }

  function Where(rs: seq<SearchRecord>, city: Option<string>, query: Option<string>): seq<SearchRecord>
  {
    Filter(rs, x => Matches(x, city, query))
  }

  function OfUser(rs: seq<SearchRecord>, userId: int): seq<SearchRecord>
  {
    Filter(rs, (x: SearchRecord) => x.user.id == userId)
  }

  function AtTime(rs: seq<SearchRecord>, t: int): seq<SearchRecord>
  {
    Filter(rs, (x: SearchRecord) => x.createdAt == t)
  }

  // ---------------------------------------------------------------- ordering

  ghost predicate NewestFirst(rs: seq<SearchRecord>)
  {
    forall i, j :: 0 <= i < j < |rs| ==> rs[i].createdAt >= rs[j].createdAt
  }

  /** Places x before the first row that is not newer than it. */
  function Insert(x: SearchRecord, rs: seq<SearchRecord>): (r: seq<SearchRecord>)
    ensures |r| == |rs| + 1
  {
    if rs == [] || rs[0].createdAt <= x.createdAt then [x] + rs
    else [rs[0]] + Insert(x, rs[1..])
  }

  /** ORDER BY createdAt DESC, keeping table order among rows created at the same time. */
  function SortNewestFirst(rs: seq<SearchRecord>): (r: seq<SearchRecord>)
    ensures |r| == |rs|
  {
    if rs == [] then [] else Insert(rs[0], SortNewestFirst(rs[1..]))
  }

  lemma {:induction false} InsertPermutes(x: SearchRecord, rs: seq<SearchRecord>)
    ensures multiset(Insert(x, rs)) == multiset(rs) + multiset{x}
  {
    if rs != [] && rs[0].createdAt > x.createdAt {
      InsertPermutes(x, rs[1..]);
      assert rs == [rs[0]] + rs[1..];
    }
  }

  /** The sorted list holds the same rows, each as often. */
  lemma {:induction false} SortPermutes(rs: seq<SearchRecord>)
    ensures multiset(SortNewestFirst(rs)) == multiset(rs)
  {
    if rs != [] {
      SortPermutes(rs[1..]);
      InsertPermutes(rs[0], SortNewestFirst(rs[1..]));
      assert rs == [rs[0]] + rs[1..];
    }
  }

  /** Every row is created no later than t. */
  ghost predicate NotAfter(rs: seq<SearchRecord>, t: int)
  {
    forall i :: 0 <= i < |rs| ==> rs[i].createdAt <= t
  }

  lemma {:induction false} InsertNotAfter(x: SearchRecord, rs: seq<SearchRecord>, t: int)
    requires NotAfter(rs, t) && x.createdAt <= t
    ensures NotAfter(Insert(x, rs), t)
  {
    if rs != [] && rs[0].createdAt > x.createdAt {
      InsertNotAfter(x, rs[1..], t);
      var r := Insert(x, rs);
      assert r == [rs[0]] + Insert(x, rs[1..]);
      forall i | 0 <= i < |r| ensures r[i].createdAt <= t {
        if i > 0 {
          assert r[i] == Insert(x, rs[1..])[i - 1];
        }
      }
    }
  }

  lemma {:induction false} InsertNewestFirst(x: SearchRecord, rs: seq<SearchRecord>)
    requires NewestFirst(rs)
    ensures NewestFirst(Insert(x, rs))
  {
    if rs != [] && rs[0].createdAt > x.createdAt {
      var tail := Insert(x, rs[1..]);
      InsertNewestFirst(x, rs[1..]);
      InsertNotAfter(x, rs[1..], rs[0].createdAt);
      var r := Insert(x, rs);
      assert r == [rs[0]] + tail;
      forall i, j | 0 <= i < j < |r| ensures r[i].createdAt >= r[j].createdAt {
        assert r[j] == tail[j - 1];
        if i > 0 {
          assert r[i] == tail[i - 1];
        }
      }
    } else if rs != [] {
      var r := Insert(x, rs);
      assert r == [x] + rs;
      forall i, j | 0 <= i < j < |r| ensures r[i].createdAt >= r[j].createdAt {
        assert r[j] == rs[j - 1];
        if i > 0 {
          assert r[i] == rs[i - 1];
        }
      }
    }
  }

  /** The result is newest first. */
  lemma {:induction false} SortIsNewestFirst(rs: seq<SearchRecord>)
    ensures NewestFirst(SortNewestFirst(rs))
  {
    if rs != [] {
      SortIsNewestFirst(rs[1..]);
      InsertNewestFirst(rs[0], SortNewestFirst(rs[1..]));
    }
  }

  lemma NewestFirstHead(rs: seq<SearchRecord>, y: SearchRecord)
    requires NewestFirst(rs) && rs != [] && y in rs
    ensures y.createdAt <= rs[0].createdAt
  {
  }

  lemma NewestFirstTail(rs: seq<SearchRecord>)
    requires NewestFirst(rs) && rs != []
    ensures NewestFirst(rs[1..])
  {
  }

  lemma FilterCons(x: SearchRecord, rs: seq<SearchRecord>, p: SearchRecord -> bool)
    ensures Filter([x] + rs, p) == (if p(x) then [x] else []) + Filter(rs, p)
  {
    assert ([x] + rs)[1..] == rs;
  }

  lemma FilterHead(rs: seq<SearchRecord>, p: SearchRecord -> bool)
    requires rs != []
    ensures Filter(rs, p) == (if p(rs[0]) then [rs[0]] else []) + Filter(rs[1..], p)
  {
  }

  /** x goes in front of a newest-first list none of whose rows is newer than x. */
  lemma InsertFront(x: SearchRecord, rs: seq<SearchRecord>)
    requires NewestFirst(rs) && (rs == [] || rs[0].createdAt <= x.createdAt)
    ensures Insert(x, rs) == [x] + rs
  {
  }

  /** Selecting from a newest-first list commutes with inserting into it. */
  lemma {:induction false} FilterInsert(x: SearchRecord, rs: seq<SearchRecord>, p: SearchRecord -> bool)
    requires NewestFirst(rs)
    ensures Filter(Insert(x, rs), p) == if p(x) then Insert(x, Filter(rs, p)) else Filter(rs, p)
  {
    var f := Filter(rs, p);
    if rs == [] || rs[0].createdAt <= x.createdAt {
      assert Insert(x, rs) == [x] + rs;
      FilterCons(x, rs, p);
      if p(x) {
        FilterNewestFirst(rs, p);
        if f != [] {
          NewestFirstHead(rs, f[0]);
        }
        InsertFront(x, f);
        assert Filter(Insert(x, rs), p) == [x] + f;
      } else {
        assert Filter(Insert(x, rs), p) == [] + f;
        assert [] + f == f;
      }
    } else {
      var r1 := rs[1..];
      var t := Insert(x, r1);
      var h := if p(rs[0]) then [rs[0]] else [];
      assert Insert(x, rs) == [rs[0]] + t;
      NewestFirstTail(rs);
      FilterInsert(x, r1, p);
      FilterCons(rs[0], t, p);
      FilterHead(rs, p);
      assert Filter(Insert(x, rs), p) == h + Filter(t, p);
      assert f == h + Filter(r1, p);
      if p(x) {
        assert Filter(t, p) == Insert(x, Filter(r1, p));
        if p(rs[0]) {
          assert f[0] == rs[0] && f[1..] == Filter(r1, p);
          assert Insert(x, f) == [rs[0]] + Insert(x, Filter(r1, p));
        } else {
          assert f == Filter(r1, p);
        }
      } else {
        assert Filter(t, p) == Filter(r1, p);
      }
    }
  }

  /** Selecting keeps a list newest first. */
  lemma {:induction false} FilterNewestFirst(rs: seq<SearchRecord>, p: SearchRecord -> bool)
    requires NewestFirst(rs)
    ensures NewestFirst(Filter(rs, p))
  {
    if rs != [] {
      NewestFirstTail(rs);
      FilterNewestFirst(rs[1..], p);
      var f := Filter(rs[1..], p);
      if p(rs[0]) {
        var r := [rs[0]] + f;
        forall i, j | 0 <= i < j < |r| ensures r[i].createdAt >= r[j].createdAt {
          assert r[j] == f[j - 1] && f[j - 1] in rs[1..];
          NewestFirstHead(rs, f[j - 1]);
          if i > 0 {
            assert r[i] == f[i - 1];
          }
        }
      }
    }
  }

  /** Selecting rows and ordering them can be done in either order. */
  lemma {:induction false} FilterCommutesWithSort(rs: seq<SearchRecord>, p: SearchRecord -> bool)
    ensures Filter(SortNewestFirst(rs), p) == SortNewestFirst(Filter(rs, p))
  {
    if rs != [] {
      var r1 := rs[1..];
      var s1 := SortNewestFirst(r1);
      var f := Filter(rs, p);
      assert SortNewestFirst(rs) == Insert(rs[0], s1);
      FilterCommutesWithSort(r1, p);
      SortIsNewestFirst(r1);
      FilterInsert(rs[0], s1, p);
      FilterHead(rs, p);
      if p(rs[0]) {
        assert f[0] == rs[0] && f[1..] == Filter(r1, p);
        assert SortNewestFirst(f) == Insert(rs[0], SortNewestFirst(Filter(r1, p)));
      } else {
        assert f == Filter(r1, p);
      }
    }
  }

  /** Sorting rows that were all created at the same time leaves them in table order. */
  lemma {:induction false} SortSameTimeIsIdentity(rs: seq<SearchRecord>, t: int)
    requires forall i :: 0 <= i < |rs| ==> rs[i].createdAt == t
    ensures SortNewestFirst(rs) == rs
  {
    if rs != [] {
      SortSameTimeIsIdentity(rs[1..], t);
      assert SortNewestFirst(rs[1..]) == rs[1..];
    }
  }

  /** Stability: the rows created at any one time keep their table order. */
  lemma SortIsStable(rs: seq<SearchRecord>, t: int)
    ensures AtTime(SortNewestFirst(rs), t) == AtTime(rs, t)
  {
    FilterCommutesWithSort(rs, (x: SearchRecord) => x.createdAt == t);
    var a := AtTime(rs, t);
    assert forall i :: 0 <= i < |a| ==> a[i] in a;
    SortSameTimeIsIdentity(a, t);
  }

  // ---------------------------------------------------------------- the queries

  /** findByUserId: the rows of that user, in table order (the JPQL has no ORDER BY). */
  function FindByUserId(rs: seq<SearchRecord>, userId: int): (r: seq<SearchRecord>)
    ensures forall x :: x in r <==> x in rs && x.user.id == userId
  {
    OfUser(rs, userId)
  }

  /** findByUserIdOrderByCreatedAtDesc. */
  function FindByUserIdOrderByCreatedAtDesc(rs: seq<SearchRecord>, userId: int): seq<SearchRecord>
  {
    SortNewestFirst(OfUser(rs, userId))
  }

  /** findByIdWithUser: the row with that id, if any. */
  function FindByIdWithUser(rs: seq<SearchRecord>, id: int): (r: Option<SearchRecord>)
    ensures r.Some? ==> r.value in rs && r.value.id == id
    ensures r.None? ==> forall i :: 0 <= i < |rs| ==> rs[i].id != id
  {
    Store.FirstMatch(rs, (x: SearchRecord) => x.id == id)
  }

  /** findByUserIdWithFilters. */
  function FindByUserIdWithFilters(rs: seq<SearchRecord>, userId: int, city: Option<string>, query: Option<string>): seq<SearchRecord>
  {
    SortNewestFirst(Where(OfUser(rs, userId), city, query))
  }

  // ---------------------------------------------------------------- what the queries return

  /** Sorting neither adds nor drops a row. */
  lemma SortMembers(rs: seq<SearchRecord>)
    ensures forall x :: x in SortNewestFirst(rs) <==> x in rs
  {
    SortPermutes(rs);
    var s := SortNewestFirst(rs);
    forall x ensures x in s <==> x in rs {
      assert x in s <==> x in multiset(s);
      assert x in rs <==> x in multiset(rs);
    }
  }

  /** The same rows as findByUserId, each as often, and newest first. */
  lemma FindByUserIdOrderedSelects(rs: seq<SearchRecord>, userId: int)
    ensures multiset(FindByUserIdOrderByCreatedAtDesc(rs, userId)) == multiset(FindByUserId(rs, userId))
    ensures NewestFirst(FindByUserIdOrderByCreatedAtDesc(rs, userId))
    ensures forall x :: x in FindByUserIdOrderByCreatedAtDesc(rs, userId) <==> x in rs && x.user.id == userId
  {
    SortIsNewestFirst(OfUser(rs, userId));
    SortPermutes(OfUser(rs, userId));
    SortMembers(OfUser(rs, userId));
  }

  /** Exactly the user's rows that pass both filters, newest first. */
  lemma FindByUserIdWithFiltersSelects(rs: seq<SearchRecord>, userId: int, city: Option<string>, query: Option<string>)
    ensures NewestFirst(FindByUserIdWithFilters(rs, userId, city, query))
    ensures forall x :: x in FindByUserIdWithFilters(rs, userId, city, query) <==>
                        x in rs && x.user.id == userId && Matches(x, city, query)
  {
    var w := Where(OfUser(rs, userId), city, query);
    SortIsNewestFirst(w);
    SortMembers(w);
  }

  lemma {:induction false} FilterAll(rs: seq<SearchRecord>, p: SearchRecord -> bool)
    requires forall x :: p(x)
    ensures Filter(rs, p) == rs
  {
    if rs != [] {
      FilterAll(rs[1..], p);
    }
  }

  /** With both filters absent the filtered query is the plain newest-first history. */
  lemma NoFiltersIsHistory(rs: seq<SearchRecord>, userId: int)
    ensures FindByUserIdWithFilters(rs, userId, None, None) == FindByUserIdOrderByCreatedAtDesc(rs, userId)
  {
    FilterAll(OfUser(rs, userId), x => Matches(x, None, None));
  }

  /** Filtering the newest-first history gives the same list as the filtered query. */
  lemma FilteringHistoryIsFilteredQuery(rs: seq<SearchRecord>, userId: int, city: Option<string>, query: Option<string>)
    ensures Where(FindByUserIdOrderByCreatedAtDesc(rs, userId), city, query) == FindByUserIdWithFilters(rs, userId, city, query)
  {
    FilterCommutesWithSort(OfUser(rs, userId), x => Matches(x, city, query));
  }

  /** In a table with increasing ids the lookup finds a row exactly when it has that id. */
  lemma FindByIdWithUserFinds(rs: seq<SearchRecord>, id: int, x: SearchRecord)
    requires Store.IncreasingRecordIds(rs)
    ensures FindByIdWithUser(rs, id) == Some(x) <==> x in rs && x.id == id
  {
    if x in rs && x.id == id {
      var k :| 0 <= k < |rs| && rs[k] == x;
      forall j | 0 <= j < k ensures rs[j].id != id {
        assert rs[j].id < rs[k].id;
      }
      Store.FirstMatchAt(rs, (y: SearchRecord) => y.id == id, k);
    }
  }
}
