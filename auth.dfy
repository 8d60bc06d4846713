/** Accounts and access: who may read, update and delete which user record,
    and how each account route changes the users collection (a map from
    username to record). Password hashing and token signing are parameters. */
module Auth {
  import opened Outcomes

  /** A password hash: a value of its own type, so a record cannot hold the
      plaintext password where the hash belongs. */
  datatype Digest = Digest(value: string)

  /** A stored user record. */
  datatype User = User(
    username: string,
    email: Option<string>,
    fullName: Option<string>,
    hashedPassword: Digest,
    disabled: bool,
    scopes: set<string>)

  /** A user as the routes return it: the record without its hash. */
  datatype Profile = Profile(
    username: string,
    email: Option<string>,
    fullName: Option<string>,
    disabled: bool,
    scopes: set<string>)

  function ProfileOf(u: User): Profile
  {
    Profile(u.username, u.email, u.fullName, u.disabled, u.scopes)
  }

  /** The account form of the create and update routes. */
  datatype UserForm = UserForm(
    username: string,
    password: string,
    email: Option<string>,
    fullName: Option<string>,
    disabled: bool,
    scopes: set<string>)

  /** The authenticated caller. */
  datatype Principal = Principal(username: string, scopes: set<string>)

  /** The claims of an issued access token and the login reply around it. */
  datatype Claims = Claims(sub: string, scopes: seq<string>, lifetimeSeconds: int)
  datatype TokenReply = TokenReply(accessToken: Claims, tokenType: string, expires: int)

  const AdminScope: string := "admin"
  const SelfScope: string := "user.me"

  /** The scope bundle every self-registered account receives. */
  const DefaultScopes: set<string> :=
    {"user.me", "memes.all", "memes.create", "memes.update", "memes.delete"}

  // ---------------------------------------------------------------------------
  // Access decisions

  predicate IsAdmin(p: Principal)
  {
    AdminScope in p.scopes
  }

  predicate Owns(p: Principal, name: string)
  {
    p.username == name
  }

  /** The caller holds `scope`, or is an administrator, who holds them all. */
  predicate Authorize(p: Principal, scope: string)
  {
    IsAdmin(p) || scope in p.scopes
  }

  /** Profile reads: administrators, or holders of the self scope reading
      their own record. */
  function MayReadProfile(p: Principal, name: string): (ok: bool)
    ensures ok <==> Authorize(p, SelfScope) && (IsAdmin(p) || Owns(p, name))
  {
    IsAdmin(p) || (SelfScope in p.scopes && p.username == name)
  }

  /** Updates: administrators, or the owner of the record. */
  function MayUpdate(p: Principal, name: string): (ok: bool)
    ensures ok <==> IsAdmin(p) || Owns(p, name)
    ensures !IsAdmin(p) ==> (ok <==> p.username == name)
  {
    AdminScope in p.scopes || p.username == name
  }

  datatype DeleteKind = HardDelete | SoftDelete | Deny

  /** Deletes: an administrator removes the record; a holder of the self
      scope deleting their own record only disables it; anyone else is
      refused. */
  function DeleteDecision(p: Principal, name: string): (d: DeleteKind)
    ensures d == HardDelete <==> IsAdmin(p)
    ensures d == SoftDelete <==> !IsAdmin(p) && Authorize(p, SelfScope) && Owns(p, name)
    ensures d == Deny <==> !IsAdmin(p) && !(SelfScope in p.scopes && Owns(p, name))
  {
    if AdminScope in p.scopes then HardDelete
    else if SelfScope in p.scopes && p.username != name then Deny
    else if SelfScope in p.scopes && p.username == name then SoftDelete
    else Deny
  }

  /** An administrator passes every decision, whatever the target. */
  lemma AdminBypassesEverything(p: Principal, name: string)
    requires IsAdmin(p)
    ensures MayReadProfile(p, name) && MayUpdate(p, name) && DeleteDecision(p, name) == HardDelete
  {
  }

  /** Without the admin scope, nobody may read, update or delete a record
      that is not their own. */
  lemma OthersRecordsAreOffLimits(p: Principal, name: string)
    requires !IsAdmin(p) && !Owns(p, name)
    ensures !MayReadProfile(p, name) && !MayUpdate(p, name) && DeleteDecision(p, name) == Deny
  {
  }

  // ---------------------------------------------------------------------------
  // The collection and the routes' effect on it

  /** Every record is stored under its own username, so usernames are
      unique. */
  predicate KeyedByName(users: map<string, User>)
  {
    forall u :: u in users ==> users[u].username == u
  }

  /** Registration: an existing username is refused with the collection
      unchanged; otherwise exactly one record is added, under that name,
      enabled, holding the hash of the password and the default scopes. */
  function Register(users: map<string, User>, username: string, password: string,
                    email: Option<string>, fullName: Option<string>, hash: string -> Digest)
    : (r: (Result<string, Failure>, map<string, User>))
    ensures r.0.Ok? <==> username !in users
    ensures r.0.Err? ==> r.0.error == Forbidden("User already exists") && r.1 == users
    ensures r.0.Ok? ==> r.1.Keys == users.Keys + {username}
                        && r.1[username] == User(username, email, fullName, hash(password), false, DefaultScopes)
    ensures forall u :: u in users ==> u in r.1 && r.1[u] == users[u]
  {
    if username in users then (Err(Forbidden("User already exists")), users)
    else (Ok("User created"),
          users[username := User(username, email, fullName, hash(password), false, DefaultScopes)])
  }

  /** The record the create and update routes store for a form: its fields,
      with the password replaced by its hash. */
  function RecordOf(form: UserForm, hash: string -> Digest): User
  {
    User(form.username, form.email, form.fullName, hash(form.password), form.disabled, form.scopes)
  }

  /** Creation by an account manager: an existing username is refused with
      the collection unchanged; otherwise exactly the form's record, with
      the hash of its password, is added under its username. */
  function Create(users: map<string, User>, form: UserForm, hash: string -> Digest)
    : (r: (Result<string, Failure>, map<string, User>))
    ensures r.0.Ok? <==> form.username !in users
    ensures r.0.Err? ==> r.0.error == Forbidden("User not created") && r.1 == users
    ensures r.0.Ok? ==> r.1.Keys == users.Keys + {form.username}
                        && r.1[form.username].hashedPassword == hash(form.password)
                        && ProfileOf(r.1[form.username])
                           == Profile(form.username, form.email, form.fullName, form.disabled, form.scopes)
    ensures forall u :: u in users ==> u in r.1 && r.1[u] == users[u]
  {
    if form.username in users then (Err(Forbidden("User not created")), users)
    else (Ok("User created"), users[form.username := RecordOf(form, hash)])
  }

  /** A profile read. Whether it is forbidden is decided from the caller
      and the name alone; a permitted read of an absent name is not found. */
  function ReadProfile(users: map<string, User>, caller: Principal, name: string)
    : (r: Result<Profile, Failure>)
    ensures r == Err(Forbidden("Not allowed")) <==> !MayReadProfile(caller, name)
    ensures r == Err(NotFound("Not found")) <==> MayReadProfile(caller, name) && name !in users
    ensures r.Ok? <==> MayReadProfile(caller, name) && name in users
    ensures r.Ok? ==> r.value == ProfileOf(users[name])
  {
    if !MayReadProfile(caller, name) then Err(Forbidden("Not allowed"))
    else if name !in users then Err(NotFound("Not found"))
    else Ok(ProfileOf(users[name]))
  }

  /** The refusal of a profile read does not depend on the collection: the
      same caller and name are refused against every collection or none. */
  lemma ReadRefusalIgnoresStore(users: map<string, User>, others: map<string, User>,
                                caller: Principal, name: string)
    ensures ReadProfile(users, caller, name) == Err(Forbidden("Not allowed"))
            <==> ReadProfile(others, caller, name) == Err(Forbidden("Not allowed"))
  {
  }

  /** An update. A refused caller changes nothing; an update of an absent
      name matches no record and changes nothing; a rename onto another
      existing username is refused; otherwise the record is replaced by the
      form's record, with the hash of its password, stored under the form's
      username. */
  function Update(users: map<string, User>, caller: Principal, name: string, form: UserForm,
                  hash: string -> Digest)
    : (r: (Result<string, Failure>, map<string, User>))
    ensures !MayUpdate(caller, name) ==> r == (Err(Forbidden("Not allowed")), users)
    ensures MayUpdate(caller, name) && name !in users ==> r == (Ok("User updated"), users)
    ensures MayUpdate(caller, name) && name in users && form.username != name && form.username in users ==>
              r == (Err(Forbidden("User already exists")), users)
    ensures r.0.Err? ==> r.1 == users
    ensures MayUpdate(caller, name) && name in users && (form.username == name || form.username !in users) ==>
              r.0 == Ok("User updated")
              && r.1.Keys == users.Keys - {name} + {form.username}
              && r.1[form.username] == RecordOf(form, hash)
    ensures forall u :: u in users && u != name ==> u in r.1 && r.1[u] == users[u]
  {
    if !MayUpdate(caller, name) then (Err(Forbidden("Not allowed")), users)
    else if name !in users then (Ok("User updated"), users)
    else if form.username != name && form.username in users then (Err(Forbidden("User already exists")), users)
    else (Ok("User updated"), (users - {name})[form.username := RecordOf(form, hash)])
  }

  /** A delete. An administrator removes the record, or gets not found when
      there is none; the owner with the self scope only disables their
      record; everyone else is refused. No other record changes. */
  function Delete(users: map<string, User>, caller: Principal, name: string)
    : (r: (Result<string, Failure>, map<string, User>))
    ensures DeleteDecision(caller, name) == HardDelete ==>
              if name in users then r == (Ok("User deleted"), users - {name})
              else r == (Err(NotFound("Not found")), users)
    ensures DeleteDecision(caller, name) == SoftDelete ==>
              r.0 == Ok("User deleted") && r.1.Keys == users.Keys
              && (name in users ==> r.1[name] == users[name].(disabled := true))
    ensures DeleteDecision(caller, name) == Deny ==> r == (Err(Forbidden("Not allowed")), users)
    ensures forall u :: u in users && u != name ==> u in r.1 && r.1[u] == users[u]
  {
    match DeleteDecision(caller, name)
    case HardDelete =>
      if name in users then (Ok("User deleted"), users - {name})
      else (Err(NotFound("Not found")), users)
    case SoftDelete =>
      if name in users then (Ok("User deleted"), users[name := users[name].(disabled := true)])
      else (Ok("User deleted"), users)
    case Deny => (Err(Forbidden("Not allowed")), users)
  }

  /** Registration keeps each record under its own username. */
  lemma RegisterKeepsKeyedByName(users: map<string, User>, username: string, password: string,
                                 email: Option<string>, fullName: Option<string>, hash: string -> Digest)
    requires KeyedByName(users)
    ensures KeyedByName(Register(users, username, password, email, fullName, hash).1)
  {
  }

  /** Creation keeps each record under its own username. */
  lemma CreateKeepsKeyedByName(users: map<string, User>, form: UserForm, hash: string -> Digest)
    requires KeyedByName(users)
    ensures KeyedByName(Create(users, form, hash).1)
  {
  }

  /** An update keeps each record under its own username, so it never
      makes two records share one. */
  lemma UpdateKeepsKeyedByName(users: map<string, User>, caller: Principal, name: string,
                               form: UserForm, hash: string -> Digest)
    requires KeyedByName(users)
    ensures KeyedByName(Update(users, caller, name, form, hash).1)
  {
  }

  /** A delete keeps each record under its own username. */
  lemma DeleteKeepsKeyedByName(users: map<string, User>, caller: Principal, name: string)
    requires KeyedByName(users)
    ensures KeyedByName(Delete(users, caller, name).1)
  {
  }

  /** A self-delete keeps the record: after deleting one's own account, an
      administrator reading it sees it disabled, with everything else as
      before. */
  lemma SoftDeleteKeepsRecord(users: map<string, User>, caller: Principal, admin: Principal)
    requires !IsAdmin(caller) && SelfScope in caller.scopes && caller.username in users
    requires IsAdmin(admin)
    ensures var after := Delete(users, caller, caller.username).1;
            && after.Keys == users.Keys
            && after[caller.username] == users[caller.username].(disabled := true)
            && ReadProfile(after, admin, caller.username)
               == Ok(ProfileOf(users[caller.username]).(disabled := true))
  {
  }

  /** The listing: not found when there are no users, otherwise every
      record, without its hash. */
  function AllUsers(users: map<string, User>): (r: Result<map<string, Profile>, Failure>)
    ensures r.Err? <==> users == map[]
    ensures r.Err? ==> r.error == NotFound("Not found")
    ensures r.Ok? ==> r.value.Keys == users.Keys
                      && forall u :: u in users ==> r.value[u] == ProfileOf(users[u])
  {
    if users == map[] then Err(NotFound("Not found"))
    else Ok(map u | u in users :: ProfileOf(users[u]))
  }

  /** Login. `authenticated` is the account the credentials authenticate,
      if any; `durationMinutes` is the configured token lifetime. The token
      carries the scopes the client asked for. */
  function Login(authenticated: Option<string>, requestedScopes: seq<string>, durationMinutes: int)
    : (r: Result<TokenReply, Failure>)
    ensures r.Err? <==> authenticated.None?
    ensures r.Err? ==> r.error == Unauthorized("Incorrect username or password")
    ensures r.Ok? ==> r.value.accessToken.sub == authenticated.value
                      && r.value.accessToken.scopes == requestedScopes
                      && r.value.expires == durationMinutes * 60
                      && r.value.accessToken.lifetimeSeconds == r.value.expires
                      && r.value.tokenType == "bearer"
  {
    if authenticated.None? then Err(Unauthorized("Incorrect username or password"))
    else Ok(TokenReply(Claims(authenticated.value, requestedScopes, durationMinutes * 60),
                       "bearer", durationMinutes * 60))
  }

  /** The issued scopes are not checked against the account's granted
      ones: a freshly registered account, which is stored without the admin
      scope, can log in and obtain a token that names it. */
  lemma LoginGrantsRequestedScopes(users: map<string, User>, username: string, password: string,
                                   email: Option<string>, fullName: Option<string>,
                                   hash: string -> Digest, durationMinutes: int)
    requires username !in users
    ensures var after := Register(users, username, password, email, fullName, hash).1;
            && AdminScope !in after[username].scopes
            && var r := Login(Some(username), [AdminScope], durationMinutes);
               r.Ok? && AdminScope in r.value.accessToken.scopes
               && r.value.accessToken.sub == after[username].username
  {
    assert Login(Some(username), [AdminScope], durationMinutes).value.accessToken.scopes[0] == AdminScope;
  }

  // ---------------------------------------------------------------------------
  // The update as written: the collection as a sequence of documents

  /** No two documents share a username. */
  predicate UniqueUsernames(docs: seq<User>)
  {
    forall i, j :: 0 <= i < j < |docs| ==> docs[i].username != docs[j].username
  }

  /** Replaces the first document whose username is `name` by `rec`. */
  function UpdateOne(docs: seq<User>, name: string, rec: User): (r: seq<User>)
    ensures |r| == |docs|
    ensures forall i :: 0 <= i < |docs| && docs[i].username != name ==> r[i] == docs[i]
    ensures forall i :: 0 <= i < |docs| ==> r[i] == docs[i] || (docs[i].username == name && r[i] == rec)
  {
    if docs == [] then []
    else if docs[0].username == name then [rec] + docs[1..]
    else [docs[0]] + UpdateOne(docs[1..], name, rec)
  }

  /** The update route as written: a permitted caller sets every field of
      the form, its username included, on the document named `name`, with
      no check that the new username is free. */
  function UpdateAsWritten(docs: seq<User>, caller: Principal, name: string, form: UserForm,
                           hash: string -> Digest)
    : (r: (Result<string, Failure>, seq<User>))
    ensures !MayUpdate(caller, name) ==> r == (Err(Forbidden("Not allowed")), docs)
    ensures MayUpdate(caller, name) ==> r.0 == Ok("User updated") && |r.1| == |docs|
  {
    if !MayUpdate(caller, name) then (Err(Forbidden("Not allowed")), docs)
    else (Ok("User updated"), UpdateOne(docs, name, RecordOf(form, hash)))
  }

  lemma {:induction false} UpdateOneReplacesAt(docs: seq<User>, i: nat, rec: User)
    requires i < |docs| && UniqueUsernames(docs)
    ensures UpdateOne(docs, docs[i].username, rec)[i] == rec
  {
    if i > 0 {
      assert docs[0].username != docs[i].username;
      assert docs[1..][i - 1] == docs[i];
      assert UniqueUsernames(docs[1..]) by {
        forall a, b | 0 <= a < b < |docs[1..]| ensures docs[1..][a].username != docs[1..][b].username {
          assert docs[1..][a] == docs[a + 1] && docs[1..][b] == docs[b + 1];
        }
      }
      UpdateOneReplacesAt(docs[1..], i - 1, rec);
    }
  }

  /** As written, a user may rename themselves onto another user's name:
      afterwards two documents carry that username. */
  lemma RenameOntoExistingDuplicates(docs: seq<User>, caller: Principal, i: nat, j: nat,
                                     form: UserForm, hash: string -> Digest)
    requires UniqueUsernames(docs) && i < |docs| && j < |docs| && i != j
    requires caller.username == docs[i].username && form.username == docs[j].username
    ensures var r := UpdateAsWritten(docs, caller, docs[i].username, form, hash);
            r.0 == Ok("User updated") && !UniqueUsernames(r.1)
  {
    var r := UpdateAsWritten(docs, caller, docs[i].username, form, hash);
    UpdateOneReplacesAt(docs, i, RecordOf(form, hash));
    assert r.1[i].username == form.username;
    assert r.1[j] == docs[j];
    if i < j {
      assert r.1[i].username == r.1[j].username;
    } else {
      assert r.1[j].username == r.1[i].username;
    }
  }

  /** The as-written update and the corrected one differ only when the new
      username is taken by another document: when it is free (or unchanged),
      the as-written update also keeps usernames unique. */
  lemma UpdateAsWrittenWithFreeName(docs: seq<User>, caller: Principal, name: string, form: UserForm,
                                    hash: string -> Digest)
    requires UniqueUsernames(docs)
    requires form.username == name || forall k :: 0 <= k < |docs| ==> docs[k].username != form.username
    ensures UniqueUsernames(UpdateAsWritten(docs, caller, name, form, hash).1)
  {
    var r := UpdateAsWritten(docs, caller, name, form, hash).1;
    var rec := RecordOf(form, hash);
    forall a, b | 0 <= a < b < |r| ensures r[a].username != r[b].username {
      if r[a] != docs[a] {
        assert docs[a].username == name && r[a] == rec && r[b] == docs[b];
        assert docs[b].username != name;
      } else if r[b] != docs[b] {
        assert docs[b].username == name && r[b] == rec;
        assert docs[a].username != name;
      }
    }
  }

  // ---------------------------------------------------------------------------
  // The routes as operations on the collection

  class UserStore {
    var users: map<string, User>

    ghost predicate Valid()
      reads this
    {
      KeyedByName(users)
    }

    constructor ()
      ensures users == map[] && Valid()
    {
      users := map[];
    }

    method RegisterUser(username: string, password: string, email: Option<string>,
                        fullName: Option<string>, hash: string -> Digest)
      returns (r: Result<string, Failure>)
      requires Valid()
      modifies this
      ensures (r, users) == Register(old(users), username, password, email, fullName, hash)
      ensures Valid()
    {
      RegisterKeepsKeyedByName(users, username, password, email, fullName, hash);
      if username in users {
        return Err(Forbidden("User already exists"));
      }
      var hashed := hash(password);
      users := users[username := User(username, email, fullName, hashed, false, DefaultScopes)];
      return Ok("User created");
    }

    method CreateUser(form: UserForm, hash: string -> Digest) returns (r: Result<string, Failure>)
      requires Valid()
      modifies this
      ensures (r, users) == Create(old(users), form, hash)
      ensures Valid()
    {
      CreateKeepsKeyedByName(users, form, hash);
      if form.username in users {
        return Err(Forbidden("User not created"));
      }
      var hashed := hash(form.password);
      users := users[form.username := User(form.username, form.email, form.fullName, hashed,
                                           form.disabled, form.scopes)];
      return Ok("User created");
    }

    method GetUserByUsername(caller: Principal, name: string) returns (r: Result<Profile, Failure>)
      ensures r == ReadProfile(users, caller, name)
    {
      if IsAdmin(caller) || (SelfScope in caller.scopes && caller.username == name) {
        if name !in users {
          return Err(NotFound("Not found"));
        }
        return Ok(ProfileOf(users[name]));
      }
      return Err(Forbidden("Not allowed"));
    }

    method UpdateUser(caller: Principal, name: string, form: UserForm, hash: string -> Digest)
      returns (r: Result<string, Failure>)
      requires Valid()
      modifies this
      ensures (r, users) == Update(old(users), caller, name, form, hash)
      ensures Valid()
    {
      UpdateKeepsKeyedByName(users, caller, name, form, hash);
      if IsAdmin(caller) || caller.username == name {
        var hashed := hash(form.password);
        if name in users {
          if form.username != name && form.username in users {
            return Err(Forbidden("User already exists"));
          }
          users := (users - {name})[form.username := User(form.username, form.email, form.fullName,
                                                          hashed, form.disabled, form.scopes)];
        }
        return Ok("User updated");
      }
      return Err(Forbidden("Not allowed"));
    }

    method DeleteUser(caller: Principal, name: string) returns (r: Result<string, Failure>)
      requires Valid()
      modifies this
      ensures (r, users) == Delete(old(users), caller, name)
      ensures Valid()
    {
      DeleteKeepsKeyedByName(users, caller, name);
      if IsAdmin(caller) {
        if name !in users {
          return Err(NotFound("Not found"));
        }
        users := users - {name};
        return Ok("User deleted");
      }
      if SelfScope in caller.scopes && caller.username != name {
        return Err(Forbidden("Not allowed"));
      }
      if SelfScope in caller.scopes && caller.username == name {
        if name in users {
          users := users[name := users[name].(disabled := true)];
        }
        return Ok("User deleted");
      }
      return Err(Forbidden("Not allowed"));
    }

    method GetAllUsers() returns (r: Result<map<string, Profile>, Failure>)
      ensures r == AllUsers(users)
    {
      if users == map[] {
        return Err(NotFound("Not found"));
      }
      return Ok(map u | u in users :: ProfileOf(users[u]));
    }
  }
}
