/** The user service's RPC handlers over the user store, including the
    validation the order service consults before it writes an order. */
module UserService {
  import opened Common
  import opened Paging
  import opened UserModels

  datatype ProtoUser = ProtoUser(id: int, name: string, email: string, phone: string, address: string, createdAt: int, updatedAt: int)

  /** The wire form of a user: every field copied. */
  function ToProto(u: User): (p: ProtoUser)
    ensures p.id == u.id && p.name == u.name && p.email == u.email && p.phone == u.phone
    ensures p.address == u.address && p.createdAt == u.createdAt && p.updatedAt == u.updatedAt
  {
    ProtoUser(u.id, u.name, u.email, u.phone, u.address, u.createdAt, u.updatedAt)
  }

  datatype CreateUserRequest = CreateUserRequest(name: string, email: string, phone: string, address: string)

  /** An update request; an empty field means "keep the stored value". */
  datatype UpdateUserRequest = UpdateUserRequest(id: int, name: string, email: string, phone: string, address: string)

  /** The answer to a validation request: whether the user exists, and the
      user when it does. */
  datatype ValidateUserResponse = ValidateUserResponse(isValid: bool, user: Option<ProtoUser>)

  /** The wire form of each user, in the same order. */
  method ToProtoAll(us: seq<User>) returns (ps: seq<ProtoUser>)
    ensures |ps| == |us|
    ensures forall i :: 0 <= i < |us| ==> ps[i] == ToProto(us[i])
  {
    ps := [];
    var i := 0;
    while i < |us|
      invariant 0 <= i <= |us| && |ps| == i
      invariant forall j :: 0 <= j < i ==> ps[j] == ToProto(us[j])
    {
      ps := ps + [ToProto(us[i])];
      i := i + 1;
    }
  }

  class UserServiceServer {
    const repo: UserRepository

    constructor (repo: UserRepository)
      ensures this.repo == repo
    {
      this.repo := repo;
    }

    /** A request without a name or without an email is refused before the
        store is touched; otherwise one row is added. */
    method CreateUser(req: CreateUserRequest, fault: Fault, now: int) returns (r: Result<ProtoUser, Code>)
      requires repo.Valid()
      modifies repo
      ensures repo.Valid()
      ensures req.name == [] || req.email == [] ==> r == Err(InvalidArgument) && unchanged(repo)
      ensures r.Ok? <==> req.name != [] && req.email != [] && fault == Healthy
      ensures req.name != [] && req.email != [] && fault == Broken ==> r == Err(Internal)
      ensures r.Err? ==> repo.users == old(repo.users)
      ensures r.Ok? ==>
        && r.value == ProtoUser(old(repo.nextId), req.name, req.email, req.phone, req.address, now, now)
        && repo.users == old(repo.users)[r.value.id := UserRow(req.name, req.email, req.phone, req.address, now, now)]
    {
      if req.name == [] || req.email == [] {
        return Err(InvalidArgument);
      }
      var user := User(0, req.name, req.email, req.phone, req.address, 0, 0);
      var created := repo.Create(user, fault, now);
      if created.Err? {
        return Err(Internal);
      }
      r := Ok(ToProto(created.value));
    }

    /** The user `id`; NotFound when there is no such row, Internal for any
        other store failure. */
    method GetUser(id: int, fault: Fault) returns (r: Result<ProtoUser, Code>)
      ensures r.Ok? <==> fault == Healthy && id in repo.users
      ensures r.Err? ==> r.error == (if fault == Broken then Internal else NotFound)
      ensures r.Ok? ==> r.value == ToProto(UserAt(id, repo.users[id]))
    {
      var got := repo.GetByID(id, fault);
      if got.Err? {
        if got.error == NoRows {
          return Err(NotFound);
        }
        return Err(Internal);
      }
      r := Ok(ToProto(got.value));
    }

    /** Reads the user, replaces each field whose requested value is not
        empty, and writes the user back. */
    method UpdateUser(req: UpdateUserRequest, readFault: Fault, writeFault: Fault, now: int) returns (r: Result<ProtoUser, Code>)
      requires repo.Valid()
      modifies repo
      ensures repo.Valid() && repo.nextId == old(repo.nextId)
      ensures r.Ok? <==> readFault == Healthy && writeFault == Healthy && req.id in old(repo.users)
      ensures r.Err? ==> repo.users == old(repo.users)
      ensures r.Err? ==> r.error == (if readFault == Healthy && req.id !in old(repo.users) then NotFound else Internal)
      ensures r.Ok? ==>
        var was := old(repo.users)[req.id];
        && repo.users.Keys == old(repo.users).Keys
        && (forall id :: id in repo.users && id != req.id ==> repo.users[id] == old(repo.users)[id])
        && repo.users[req.id].name == (if req.name != [] then req.name else was.name)
        && repo.users[req.id].email == (if req.email != [] then req.email else was.email)
        && repo.users[req.id].phone == (if req.phone != [] then req.phone else was.phone)
        && repo.users[req.id].address == (if req.address != [] then req.address else was.address)
        && repo.users[req.id].createdAt == was.createdAt && repo.users[req.id].updatedAt == now
        && r.value == ToProto(UserAt(req.id, repo.users[req.id]))
    {
      var got := repo.GetByID(req.id, readFault);
      if got.Err? {
        if got.error == NoRows {
          return Err(NotFound);
        }
        return Err(Internal);
      }
      var existing := got.value;
      if req.name != [] {
        existing := existing.(name := req.name);
      }
      if req.email != [] {
        existing := existing.(email := req.email);
      }
      if req.phone != [] {
        existing := existing.(phone := req.phone);
      }
      if req.address != [] {
        existing := existing.(address := req.address);
      }
      var written := repo.Update(existing, writeFault, now);
      if written.Err? {
        return Err(Internal);
      }
      existing := existing.(updatedAt := written.value);
      r := Ok(ToProto(existing));
    }

    /** Removes the user `id`; NotFound when there is no such row. */
    method DeleteUser(id: int, fault: Fault) returns (r: Result<bool, Code>)
      requires repo.Valid()
      modifies repo
      ensures repo.Valid() && repo.nextId == old(repo.nextId)
      ensures r.Ok? <==> fault == Healthy && id in old(repo.users)
      ensures r.Err? ==> r.error == (if fault == Broken then Internal else NotFound) && repo.users == old(repo.users)
      ensures r.Ok? ==> r.value && repo.users == old(repo.users) - {id}
    {
      var deleted := repo.Delete(id, fault);
      if deleted.Fail? {
        if deleted.error == NoRows {
          return Err(NotFound);
        }
        return Err(Internal);
      }
      r := Ok(true);
    }

    /** One page of users in wire form and the number of all users. */
    method ListUsers(page: int, limit: int, fault: Fault)
      returns (r: Result<(seq<ProtoUser>, int), Code>, ghost users: seq<User>, ghost ranking: seq<int>)
      ensures r.Err? <==> fault == Broken
      ensures r.Err? ==> r.error == Internal
      ensures r.Ok? ==>
        && r.value.1 == |repo.users|
        && |r.value.0| == |users| && (forall i :: 0 <= i < |users| ==> r.value.0[i] == ToProto(users[i]))
        && (forall i :: 0 <= i < |users| ==> StoredUser(repo.users, users[i]))
        && Distinct(ranking) && NewestFirst(ranking, UserCreatedAt(repo.users))
        && (forall id :: id in repo.users ==> id in ranking)
        && UserIds(users) == Window(ranking, Offset(NormalizePage(page), NormalizeLimit(limit)), NormalizeLimit(limit))
        && |users| <= NormalizeLimit(limit)
    {
      users := [];
      var listed;
      listed, ranking := repo.List(page, limit, fault);
      if listed.Err? {
        return Err(Internal), users, ranking;
      }
      users := listed.value.0;
      var ps := ToProtoAll(listed.value.0);
      r := Ok((ps, listed.value.1));
    }

    /** Whether user `id` exists: an absent row is a normal answer
        (`IsValid` false, no user, no error); any other store failure is
        Internal. */
    method ValidateUser(id: int, fault: Fault) returns (r: Result<ValidateUserResponse, Code>)
      ensures r.Err? <==> fault == Broken
      ensures r.Err? ==> r.error == Internal
      ensures r.Ok? ==> (r.value.isValid <==> id in repo.users)
      ensures r.Ok? && !r.value.isValid ==> r.value.user == None
      ensures r.Ok? && r.value.isValid ==> r.value.user == Some(ToProto(UserAt(id, repo.users[id])))
    {
      var got := repo.GetByID(id, fault);
      if got.Err? {
        if got.error == NoRows {
          return Ok(ValidateUserResponse(false, None));
        }
        return Err(Internal);
      }
      r := Ok(ValidateUserResponse(true, Some(ToProto(got.value))));
    }
  }

  /** An update whose fields are all empty rewrites the row with its own
      values: the stored name, email, phone and address stay. */
  method EmptyUpdateKeepsUser(server: UserServiceServer, id: int, now: int) returns (r: Result<ProtoUser, Code>)
    requires server.repo.Valid()
    modifies server.repo
    ensures r.Ok? <==> id in old(server.repo.users)
    ensures r.Ok? ==>
      var was := old(server.repo.users)[id];
      && r.value.name == was.name && r.value.email == was.email
      && r.value.phone == was.phone && r.value.address == was.address
      && server.repo.users == old(server.repo.users)[id := was.(updatedAt := now)]
  {
    r := server.UpdateUser(UpdateUserRequest(id, [], [], [], []), Healthy, Healthy, now);
  }
}
