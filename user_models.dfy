/** The user directory's store: the `users` table kept as a map keyed by row
    id, with its `SERIAL` id sequence as a counter. A timestamp is the
    abstract value `now` of the database clock when a write runs. */
module UserModels {
  import opened Common
  import opened Paging

  /** One `users` row (its key is the user id). */
  datatype UserRow = UserRow(name: string, email: string, phone: string, address: string, createdAt: int, updatedAt: int)

  datatype User = User(id: int, name: string, email: string, phone: string, address: string, createdAt: int, updatedAt: int)

  function RowOf(u: User): UserRow {
    UserRow(u.name, u.email, u.phone, u.address, u.createdAt, u.updatedAt)
  }

  function UserAt(id: int, row: UserRow): (u: User)
    ensures u.id == id && RowOf(u) == row
  {
    User(id, row.name, row.email, row.phone, row.address, row.createdAt, row.updatedAt)
  }

  function UserCreatedAt(users: map<int, UserRow>): map<int, int> {
    map id | id in users :: users[id].createdAt
  }

  function UserIds(us: seq<User>): (ids: seq<int>)
    ensures |ids| == |us|
    ensures forall i :: 0 <= i < |us| ==> ids[i] == us[i].id
  {
    seq(|us|, i requires 0 <= i < |us| => us[i].id)
  }

  /** `u` is the user stored under `u.id`. */
  ghost predicate StoredUser(users: map<int, UserRow>, u: User) {
    u.id in users && users[u.id] == RowOf(u)
  }

  class UserRepository {
    var users: map<int, UserRow>
    /** The next value of the `users.id` sequence. */
    var nextId: int

    ghost predicate Valid()
      reads this
    {
      nextId >= 1 && forall id :: id in users ==> 1 <= id < nextId
    }

    constructor ()
      ensures Valid() && users == map[] && nextId == 1
    {
      users, nextId := map[], 1;
    }

    /** Inserts one row with the user's name, email, phone and address and
        returns the user with the assigned id and timestamps. */
    method Create(user: User, fault: Fault, now: int) returns (r: Result<User, StoreError>)
      requires Valid()
      modifies this
      ensures Valid()
      ensures r.Ok? <==> fault == Healthy
      ensures r.Err? ==> r.error == DbError && users == old(users) && nextId == old(nextId)
      ensures r.Ok? ==>
        && r.value == user.(id := old(nextId), createdAt := now, updatedAt := now)
        && r.value.id !in old(users)
        && users == old(users)[r.value.id := UserRow(user.name, user.email, user.phone, user.address, now, now)]
        && |users| == |old(users)| + 1
        && nextId == old(nextId) + 1
    {
      if fault == Broken {
        return Err(DbError);
      }
      var id := nextId;
      nextId := nextId + 1;
      users := users[id := UserRow(user.name, user.email, user.phone, user.address, now, now)];
      r := Ok(user.(id := id, createdAt := now, updatedAt := now));
    }

    /** The user row `id`; `NoRows` when there is none. */
    method GetByID(id: int, fault: Fault) returns (r: Result<User, StoreError>)
      ensures r.Ok? <==> fault == Healthy && id in users
      ensures r.Err? ==> r.error == (if fault == Broken then DbError else NoRows)
      ensures r.Ok? ==> r.value.id == id && StoredUser(users, r.value)
    {
      if fault == Broken {
        return Err(DbError);
      }
      if id !in users {
        return Err(NoRows);
      }
      r := Ok(UserAt(id, users[id]));
    }

    /** Overwrites the name, email, phone and address of row `user.id` and
        stamps it updated at `now`, which it returns; `NoRows` when the row
        does not exist. No other row changes. */
    method Update(user: User, fault: Fault, now: int) returns (r: Result<int, StoreError>)
      requires Valid()
      modifies this
      ensures Valid() && nextId == old(nextId)
      ensures r.Ok? <==> fault == Healthy && user.id in old(users)
      ensures r.Err? ==> r.error == (if fault == Broken then DbError else NoRows) && users == old(users)
      ensures r.Ok? ==> r.value == now && users == old(users)[user.id := old(users)[user.id].(
                          name := user.name, email := user.email, phone := user.phone,
                          address := user.address, updatedAt := now)]
    {
      if fault == Broken {
        return Err(DbError);
      }
      if user.id !in users {
        return Err(NoRows);
      }
      users := users[user.id := users[user.id].(
        name := user.name, email := user.email, phone := user.phone,
        address := user.address, updatedAt := now)];
      r := Ok(now);
    }

    /** Removes row `id`; `NoRows`, and nothing removed, when no row has
        that id. */
    method Delete(id: int, fault: Fault) returns (r: Outcome<StoreError>)
      requires Valid()
      modifies this
      ensures Valid() && nextId == old(nextId)
      ensures r.Pass? <==> fault == Healthy && id in old(users)
      ensures r.Fail? ==> r.error == (if fault == Broken then DbError else NoRows) && users == old(users)
      ensures r.Pass? ==> users == old(users) - {id} && |users| == |old(users)| - 1
    {
      if fault == Broken {
        return Fail(DbError);
      }
      if id !in users {
        return Fail(NoRows);
      }
      users := users - {id};
      r := Pass;
    }

    /** The users `ids`, in that order. */
    method LoadUsers(ids: seq<int>) returns (us: seq<User>)
      requires forall i :: 0 <= i < |ids| ==> ids[i] in users
      ensures UserIds(us) == ids
      ensures forall i :: 0 <= i < |us| ==> StoredUser(users, us[i])
    {
      us := [];
      var i := 0;
      while i < |ids|
        invariant 0 <= i <= |ids|
        invariant UserIds(us) == ids[..i]
        invariant forall j :: 0 <= j < |us| ==> StoredUser(users, us[j])
      {
        us := us + [UserAt(ids[i], users[ids[i]])];
        assert ids[..i + 1] == ids[..i] + [ids[i]];
        i := i + 1;
      }
    }

    /** One page of users, newest first, and the number of all user rows;
        `ranking` is the arrangement `ORDER BY created_at DESC` produced. */
    method List(page: int, limit: int, fault: Fault) returns (r: Result<(seq<User>, int), StoreError>, ghost ranking: seq<int>)
      ensures r.Err? <==> fault == Broken
      ensures r.Err? ==> r.error == DbError
      ensures r.Ok? ==>
        && r.value.1 == |users|
        && Distinct(ranking) && NewestFirst(ranking, UserCreatedAt(users))
        && (forall id :: id in users ==> id in ranking)
        && UserIds(r.value.0) == Window(ranking, Offset(NormalizePage(page), NormalizeLimit(limit)), NormalizeLimit(limit))
        && |r.value.0| <= NormalizeLimit(limit)
        && (forall i :: 0 <= i < |r.value.0| ==> StoredUser(users, r.value.0[i]))
    {
      ranking := [];
      if fault == Broken {
        return Err(DbError), ranking;
      }
      var p := NormalizePage(page);
      var l := NormalizeLimit(limit);
      var offset := Offset(p, l);
      var total := |users|;
      var ranked := RankNewestFirst(UserCreatedAt(users), users.Keys);
      ranking := ranked;
      var us := LoadUsers(Window(ranked, offset, l));
      r := Ok((us, total));
    }

    /** A user whose email is `email`; `NoRows` when there is none. */
    method GetByEmail(email: string, fault: Fault) returns (r: Result<User, StoreError>)
      ensures r.Err? ==> r.error == (if fault == Broken then DbError else NoRows)
      ensures r.Err? && fault == Healthy ==> forall id :: id in users ==> users[id].email != email
      ensures r.Ok? ==> fault == Healthy && StoredUser(users, r.value) && r.value.email == email
    {
      if fault == Broken {
        return Err(DbError);
      }
      var rest := users.Keys;
      while rest != {}
        invariant rest <= users.Keys
        invariant forall id :: id in users && id !in rest ==> users[id].email != email
        decreases |rest|
      {
        var id := AnyOf(rest);
        if users[id].email == email {
          return Ok(UserAt(id, users[id]));
        }
        rest := rest - {id};
      }
      r := Err(NoRows);
    }
  }
}
