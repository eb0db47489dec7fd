/** The user handlers' rules: registration with its e-mail check, login,
    the profile projection and the profile update. */
module UserController {
  import opened Common
  import opened UserModel
  import opened Upload

  /** The unique index on `email`: no two users share an address. */
  ghost predicate EmailsUnique(users: map<Id, User>)
  {
    forall a, b :: a in users && b in users && users[a].email == users[b].email ==> a == b
  }

  ghost predicate TableValid(users: map<Id, User>)
  {
    (forall id :: id in users ==> UserModel.Valid(users[id])) && EmailsUnique(users)
  }

  /** The signed token; signing is not modelled, only whose id it carries. */
  datatype Token = Token(userId: Id)

  /** The body register and login answer with: never the password. */
  datatype Session = Session(id: Id, username: string, email: string, role: string, token: Token)

  /** The body getUserProfile answers with. */
  datatype Profile = Profile(id: Id, username: string, email: string, role: string)

  /** The body updateUserProfile answers with. */
  datatype UpdatedProfile = UpdatedProfile(
    id: Id, username: string, email: string, role: string, profileImageUrl: string, token: Token)

  /** The body register and login build for a user: its id, username,
      e-mail and role and a token for its id; the password stays out. */
  function SessionOf(id: Id, u: User): (s: Session)
    ensures s.id == id && s.token == Token(id)
    ensures s.username == u.username && s.email == u.email && s.role == u.role
  {
    Session(id, u.username, u.email, u.role, Token(id))
  }

  // ----- findOne({ email }) -----

  /** `User.findOne({ email })`: the first user in natural order holding the address. */
  function FindByEmail(users: map<Id, User>, email: string): (r: Option<Id>)
    ensures r.Some? <==> exists id :: id in users && users[id].email == email
    ensures r.Some? ==> r.value in users && users[r.value].email == email
    ensures r.Some? ==> forall id :: id in users && users[id].email == email ==> r.value <= id
  {
    var holders := set id | id in users && users[id].email == email;
    if holders == {} then
      assert forall id :: id in users && users[id].email == email ==> id in holders;
      None
    else
      var first := Least(holders);
      assert forall id :: id in users && users[id].email == email ==> id in holders;
      Some(first)
  }

  /** With unique e-mails the user found is the only holder of the address. */
  lemma FindByEmailUnique(users: map<Id, User>, id: Id)
    requires EmailsUnique(users) && id in users
    ensures FindByEmail(users, users[id].email) == Some(id)
  {
  }

  // ----- registerUser -----

  /** The outcome of registerUser: the status, the new user table and the response body. */
  datatype Registration = Registration(status: Status, users: map<Id, User>, session: Option<Session>)

  /** The e-mail of a request body is already held; an absent e-mail matches nobody. */
  predicate EmailHeld(users: map<Id, User>, email: Option<string>)
    ensures EmailHeld(users, email) <==> email.Some? && exists id :: id in users && users[id].email == email.value
  {
    email.Some? && FindByEmail(users, email.value).Some?
  }

  /** registerUser with `id` as the id the database hands out: 400 when the
      address is held, a refused save when a required field is missing,
      otherwise one new user with the default role. */
  function Register(users: map<Id, User>, id: Id, username: Option<string>, email: Option<string>, password: Option<string>)
    : (r: Registration)
    requires id !in users
    ensures r.status == BadRequest <==> EmailHeld(users, email)
    ensures r.status == Ok <==>
      !EmailHeld(users, email) && Truthy(username) && Truthy(email) && Truthy(password)
    ensures r.status == Ok || r.status == BadRequest || r.status == Rejected
    ensures r.status != Ok ==> r.users == users && r.session.None?
    ensures r.status == Ok ==>
      r.users.Keys == users.Keys + {id}
      && (forall k :: k in users ==> r.users[k] == users[k])
      && r.users[id] == User(username.value, email.value, password.value, DefaultRole, DefaultProfileImageUrl, [])
      && r.session == Some(Session(id, username.value, email.value, DefaultRole, Token(id)))
  {
    if EmailHeld(users, email) then Registration(BadRequest, users, None)
    else
      match UserModel.Validate(UserDraft(username, email, password, None, None, None))
      case None => Registration(Rejected, users, None)
      case Some(u) => Registration(Ok, users[id := u], Some(SessionOf(id, u)))
  }

  /** Registration keeps the user table valid: the e-mail check guards the unique index. */
  lemma RegisterKeepsTableValid(users: map<Id, User>, id: Id, username: Option<string>, email: Option<string>, password: Option<string>)
    requires id !in users && TableValid(users)
    ensures TableValid(Register(users, id, username, email, password).users)
  {
    var r := Register(users, id, username, email, password);
    if r.status == Ok {
      forall a, b | a in r.users && b in r.users && r.users[a].email == r.users[b].email
        ensures a == b
      {
      }
    }
  }

  /** A second registration with the same address is refused, whatever the other fields. */
  lemma {:induction false} RegisterTwiceRefused(users: map<Id, User>, id1: Id, id2: Id,
    username: Option<string>, email: Option<string>, password: Option<string>,
    username2: Option<string>, password2: Option<string>)
    requires id1 !in users && id2 !in users && id1 != id2
    requires Register(users, id1, username, email, password).status == Ok
    ensures var after := Register(users, id1, username, email, password).users;
      Register(after, id2, username2, email, password2).status == BadRequest
  {
    var after := Register(users, id1, username, email, password).users;
    assert id1 in after && after[id1].email == email.value;
  }

  // ----- loginUser -----

  /** loginUser: the first user holding the address, when `matches` (the
      password comparison) accepts the entered password; None is the 401. */
  function Login(users: map<Id, User>, email: string, password: string, matches: (string, string) -> bool)
    : (r: Option<Session>)
    ensures r.Some? ==>
      r.value.id in users && users[r.value.id].email == email && matches(password, users[r.value.id].password)
      && r.value == SessionOf(r.value.id, users[r.value.id])
    ensures EmailsUnique(users) ==>
      (r.Some? <==> exists id :: id in users && users[id].email == email && matches(password, users[id].password))
  {
    match FindByEmail(users, email)
    case None => None
    case Some(id) => if matches(password, users[id].password) then Some(SessionOf(id, users[id])) else None
  }

  /** A user who just registered can log in with the same address and password
      when the comparison accepts a password against itself. */
  lemma {:induction false} RegisterThenLogin(users: map<Id, User>, id: Id,
    username: Option<string>, email: Option<string>, password: Option<string>, matches: (string, string) -> bool)
    requires id !in users && TableValid(users)
    requires Register(users, id, username, email, password).status == Ok
    requires matches(password.value, password.value)
    ensures Login(Register(users, id, username, email, password).users, email.value, password.value, matches)
      == Register(users, id, username, email, password).session
  {
    var r := Register(users, id, username, email, password);
    RegisterKeepsTableValid(users, id, username, email, password);
    FindByEmailUnique(r.users, id);
  }

  // ----- getUserProfile -----

  /** getUserProfile: id, username, e-mail and role of the caller; None is the 404. */
  function GetUserProfile(users: map<Id, User>, caller: Id): (r: Option<Profile>)
    ensures r.Some? <==> caller in users
    ensures r.Some? ==>
      r.value.id == caller && r.value.username == users[caller].username
      && r.value.email == users[caller].email && r.value.role == users[caller].role
  {
    if caller in users then
      var u := users[caller];
      Some(Profile(caller, u.username, u.email, u.role))
    else None
  }

  /** The profile shows what the login response showed. */
  lemma ProfileAgreesWithLogin(users: map<Id, User>, email: string, password: string, matches: (string, string) -> bool)
    requires Login(users, email, password, matches).Some?
    ensures var s := Login(users, email, password, matches).value;
      GetUserProfile(users, s.id) == Some(Profile(s.id, s.username, s.email, s.role))
  {
  }

  // ----- updateUserProfile -----

  /** The public URL of an uploaded profile picture: a slash before the path
      the upload middleware reports. */
  function ProfileImageUrl(filePath: string): (r: string)
    ensures |r| == |filePath| + 1 && r[0] == '/' && r[1..] == filePath
  {
    "/" + filePath
  }

  /** A picture uploaded through the middleware gets a URL under `/uploads/`. */
  lemma ProfileImageInDestination(f: UploadedFile)
    ensures var url := ProfileImageUrl(StoredPath(f));
      |url| > |Destination| + 1 && url[..|Destination| + 1] == "/" + Destination
  {
    StoredPathInDestination(f);
    var url := ProfileImageUrl(StoredPath(f));
    assert url[1..|Destination| + 1] == StoredPath(f)[..|Destination|];
  }

  /** The document updateUserProfile saves: `username || user.username`,
      `email || user.email`, the picture only when a file was uploaded, the
      password only when a truthy one was sent. */
  function UpdatedUser(u: User, username: Option<string>, email: Option<string>, password: Option<string>, filePath: Option<string>)
    : (r: User)
    ensures r.username == (if Truthy(username) then username.value else u.username)
    ensures r.email == (if Truthy(email) then email.value else u.email)
    ensures r.password == (if Truthy(password) then password.value else u.password)
    ensures r.profileImageUrl == (if filePath.Some? then ProfileImageUrl(filePath.value) else u.profileImageUrl)
    ensures r.role == u.role && r.favorites == u.favorites
    ensures UserModel.Valid(u) ==> UserModel.Valid(r)
  {
    var r := u.(username := OrElse(username, u.username), email := OrElse(email, u.email));
    var r := if filePath.Some? then r.(profileImageUrl := ProfileImageUrl(filePath.value)) else r;
    if Truthy(password) then r.(password := password.value) else r
  }

  /** Sending the same update twice changes nothing the second time. */
  lemma UpdatedUserIdempotent(u: User, username: Option<string>, email: Option<string>, password: Option<string>, filePath: Option<string>)
    ensures var once := UpdatedUser(u, username, email, password, filePath);
      UpdatedUser(once, username, email, password, filePath) == once
  {
  }

  /** An update with no field and no file saves the document as it was. */
  lemma UpdatedUserEmpty(u: User, username: Option<string>, email: Option<string>, password: Option<string>)
    requires !Truthy(username) && !Truthy(email) && !Truthy(password)
    ensures UpdatedUser(u, username, email, password, None) == u
  {
  }

  /** Another user already holds the address the update would store. */
  predicate EmailTakenByOther(users: map<Id, User>, caller: Id, email: string)
    ensures EmailsUnique(users) && caller in users ==>
      (EmailTakenByOther(users, caller, email) <==> FindByEmail(users, email).Some? && FindByEmail(users, email).value != caller)
  {
    exists id :: id in users && id != caller && users[id].email == email
  }

  datatype ProfileUpdate = ProfileUpdate(status: Status, users: map<Id, User>, body: Option<UpdatedProfile>)

  /** updateUserProfile: 404 for a missing caller; a save the unique index
      or the validators refuse leaves the table as it was; otherwise only the
      caller's document changes. */
  function UpdateProfile(users: map<Id, User>, caller: Id,
    username: Option<string>, email: Option<string>, password: Option<string>, filePath: Option<string>)
    : (r: ProfileUpdate)
    ensures r.status == NotFound <==> caller !in users
    ensures r.status == Ok || r.status == NotFound || r.status == Rejected
    ensures r.status != Ok ==> r.users == users && r.body.None?
    ensures caller in users && UserModel.Valid(users[caller]) ==>
      (r.status == Rejected <==> EmailTakenByOther(users, caller, UpdatedUser(users[caller], username, email, password, filePath).email))
    ensures r.status == Ok ==>
      var u := UpdatedUser(users[caller], username, email, password, filePath);
      r.users == users[caller := u]
      && r.body == Some(UpdatedProfile(caller, u.username, u.email, u.role, u.profileImageUrl, Token(caller)))
  {
    if caller !in users then ProfileUpdate(NotFound, users, None)
    else
      var u := UpdatedUser(users[caller], username, email, password, filePath);
      if !UserModel.Valid(u) || EmailTakenByOther(users, caller, u.email) then ProfileUpdate(Rejected, users, None)
      else ProfileUpdate(Ok, users[caller := u], Some(UpdatedProfile(caller, u.username, u.email, u.role, u.profileImageUrl, Token(caller))))
  }

  lemma UpdateProfileKeepsTableValid(users: map<Id, User>, caller: Id,
    username: Option<string>, email: Option<string>, password: Option<string>, filePath: Option<string>)
    requires TableValid(users)
    ensures TableValid(UpdateProfile(users, caller, username, email, password, filePath).users)
  {
  }

  // ----- deleteUserProfile -----

  /** deleteUserProfile: removes the caller's document and nothing else; None is the 404. */
  function DeleteProfile(users: map<Id, User>, caller: Id): (r: Option<map<Id, User>>)
    ensures r.Some? <==> caller in users
    ensures r.Some? ==> r.value.Keys == users.Keys - {caller} && forall k :: k in r.value ==> r.value[k] == users[k]
  {
    if caller in users then Some(users - {caller}) else None
  }

  /** Deleting the account just registered gives the user table back. */
  lemma RegisterThenDelete(users: map<Id, User>, id: Id, username: Option<string>, email: Option<string>, password: Option<string>)
    requires id !in users
    requires Register(users, id, username, email, password).status == Ok
    ensures DeleteProfile(Register(users, id, username, email, password).users, id) == Some(users)
  {
    var after := Register(users, id, username, email, password).users;
    assert after - {id} == users;
  }
}
