/**
 * The two tables the services read and write: users and search_results, with the id
 * generation and the lookups that the user repository provides.
 */
module Store {
  import opened Errors
  import opened Dto
  import opened Entities

  /** The earliest element satisfying p, if any: the selection every lookup by key makes. */
  function FirstMatch<T>(xs: seq<T>, p: T -> bool): (r: Option<T>)
    ensures r.Some? ==> r.value in xs && p(r.value)
    ensures r.None? ==> forall i :: 0 <= i < |xs| ==> !p(xs[i])
  {
    if xs == [] then None else if p(xs[0]) then Some(xs[0]) else FirstMatch(xs[1..], p)
  }

  /** The element at k is found when it satisfies p and none before it does. */
  lemma {:induction false} FirstMatchAt<T>(xs: seq<T>, p: T -> bool, k: int)
    requires 0 <= k < |xs| && p(xs[k])
    requires forall j :: 0 <= j < k ==> !p(xs[j])
    ensures FirstMatch(xs, p) == Some(xs[k])
  {
    if k > 0 {
      assert !p(xs[0]);
      FirstMatchAt(xs[1..], p, k - 1);
    }
  }

  /** userRepository.findById(id): the user row with that id, if any. */
  function UserById(users: seq<User>, id: int): (r: Option<User>)
    ensures r.Some? ==> r.value in users && r.value.id == id
    ensures r.None? ==> forall i :: 0 <= i < |users| ==> users[i].id != id
  {
    FirstMatch(users, (u: User) => u.id == id)
  }

  /** The position of the user row with that id, if any. */
  function UserIndex(users: seq<User>, id: int): (r: Option<nat>)
    ensures r.Some? ==> r.value < |users| && users[r.value].id == id
    ensures r.None? ==> forall i :: 0 <= i < |users| ==> users[i].id != id
  {
    if users == [] then None
    else if users[0].id == id then Some(0)
    else match UserIndex(users[1..], id)
      case None => None
      case Some(k) => Some(k + 1)
  }

  /** userRepository.findByEmail(email): the earliest user row with that email, if any. */
  function UserByEmail(users: seq<User>, email: string): (r: Option<User>)
    ensures r.Some? ==> r.value in users && r.value.email == email
    ensures r.None? ==> forall i :: 0 <= i < |users| ==> users[i].email != email
  {
    FirstMatch(users, (u: User) => u.email == email)
  }

  /** Ids in a table are increasing in insertion order, hence distinct. */
  ghost predicate IncreasingRecordIds(rs: seq<SearchRecord>)
  {
    forall i, j :: 0 <= i < j < |rs| ==> rs[i].id < rs[j].id
  }

  ghost predicate IncreasingUserIds(us: seq<User>)
  {
    forall i, j :: 0 <= i < j < |us| ==> us[i].id < us[j].id
  }

  /** With increasing ids a row is found by its own id. */
  lemma UserByIdAt(us: seq<User>, k: int)
    requires IncreasingUserIds(us) && 0 <= k < |us|
    ensures UserById(us, us[k].id) == Some(us[k])
  {
    var id := us[k].id;
    forall j | 0 <= j < k ensures us[j].id != id {
      assert us[j].id < us[k].id;
    }
    FirstMatchAt(us, (u: User) => u.id == id, k);
  }

  /** A row appended behind every row with another email is the one found by its email. */
  lemma UserByEmailAppended(us: seq<User>, u: User)
    requires UserByEmail(us, u.email).None?
    ensures UserByEmail(us + [u], u.email) == Some(u)
  {
    var all := us + [u];
    forall j | 0 <= j < |us| ensures all[j].email != u.email {
      assert all[j] == us[j];
    }
    FirstMatchAt(all, (v: User) => v.email == u.email, |us|);
  }

  class Database {
    var users: seq<User>
    var records: seq<SearchRecord>
    var nextUserId: int
    var nextRecordId: int

    /** Ids are generated in increasing order and the next one is above every id in use. */
    ghost predicate Valid()
      reads this
    {
      && IncreasingUserIds(users)
      && IncreasingRecordIds(records)
      && (forall i :: 0 <= i < |users| ==> users[i].id < nextUserId)
      && (forall i :: 0 <= i < |records| ==> records[i].id < nextRecordId)
    }

    constructor ()
      ensures Valid() && users == [] && records == []
    {
      users, records := [], [];
      nextUserId, nextRecordId := 1, 1;
    }

    /**
     * searchResultRepository.save(entity) for a new entity: the table assigns the next id, sets
     * it on the entity and appends the row; nothing else changes.
     */
    method InsertRecord(e: SearchResultEntity) returns (saved: SearchRecord)
      requires Valid() && e.Writable()
      modifies this, e`id
      ensures Valid()
      ensures e.id == Some(saved.id) && saved == e.AsRecord(old(nextRecordId))
      ensures records == old(records) + [saved]
      ensures users == old(users)
    {
      e.SetId(nextRecordId);
      saved := e.AsRecord(nextRecordId);
      records := records + [saved];
      nextRecordId := nextRecordId + 1;
    }

    /**
     * userRepository.save(user): an entity whose id names an existing row replaces that row in
     * place; any other entity is inserted under the next id, which is set on it.
     */
    method SaveUser(u: UserEntity) returns (saved: User)
      requires Valid()
      modifies this, u`id
      ensures Valid()
      ensures records == old(records)
      ensures u.id == Some(saved.id)
      ensures saved == User(saved.id, u.name, u.email, u.password)
      ensures old(u.id).Some? && UserIndex(old(users), old(u.id).value).Some? ==>
                saved.id == old(u.id).value && users == old(users)[UserIndex(old(users), old(u.id).value).value := saved]
      ensures !(old(u.id).Some? && UserIndex(old(users), old(u.id).value).Some?) ==>
                saved.id == old(nextUserId) && users == old(users) + [saved]
    {
      var at := if u.id.Some? then UserIndex(users, u.id.value) else None;
      if at.Some? {
        saved := User(u.id.value, u.name, u.email, u.password);
        users := users[at.value := saved];
      } else {
        u.SetId(nextUserId);
        saved := User(nextUserId, u.name, u.email, u.password);
        users := users + [saved];
        nextUserId := nextUserId + 1;
      }
    }
  }
}
