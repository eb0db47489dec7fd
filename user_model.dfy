/** The User document: required fields, the role enum and the defaults of
    the schema, as applied when a document is saved. */
module UserModel {
  import opened Common

  const Roles: set<string> := {"user", "admin"}
  const DefaultRole: string := "user"
  const DefaultProfileImageUrl: string := ""

  /** `password` holds the stored credential; hashing is not modelled. */
  datatype User = User(
    username: string,
    email: string,
    password: string,
    role: string,
    profileImageUrl: string,
    favorites: seq<Id>)  // hairstyle ids

  /** The document satisfies the schema: the three required strings are
      non-empty (Mongoose's `required` refuses "") and the role is in the enum. */
  predicate Valid(u: User)
  {
    u.username != "" && u.email != "" && u.password != "" && u.role in Roles
  }

  /** A document as a handler builds it, before Mongoose applies defaults
      and validators; None is a field the handler did not set. */
  datatype UserDraft = UserDraft(
    username: Option<string>,
    email: Option<string>,
    password: Option<string>,
    role: Option<string>,
    profileImageUrl: Option<string>,
    favorites: Option<seq<Id>>)

  /** Defaults then validation, as on `User.create` or `save`: None when the
      save is refused. */
  function Validate(d: UserDraft): (r: Option<User>)
    ensures r.Some? <==>
      Truthy(d.username) && Truthy(d.email) && Truthy(d.password) && (d.role.None? || d.role.value in Roles)
    ensures r.Some? ==> Valid(r.value)
    ensures r.Some? ==>
      r.value.username == d.username.value && r.value.email == d.email.value && r.value.password == d.password.value
    ensures r.Some? && d.role.None? ==> r.value.role == DefaultRole
    ensures r.Some? && d.profileImageUrl.None? ==> r.value.profileImageUrl == DefaultProfileImageUrl
    ensures r.Some? && d.favorites.None? ==> r.value.favorites == []
  {
    var role := if d.role.Some? then d.role.value else DefaultRole;
    var image := if d.profileImageUrl.Some? then d.profileImageUrl.value else DefaultProfileImageUrl;
    var favorites := if d.favorites.Some? then d.favorites.value else [];
    if Truthy(d.username) && Truthy(d.email) && Truthy(d.password) && role in Roles then
      Some(User(d.username.value, d.email.value, d.password.value, role, image, favorites))
    else
      None
  }

  /** The draft that sets every field of `u`. */
  function DraftOf(u: User): UserDraft
  {
    UserDraft(Some(u.username), Some(u.email), Some(u.password), Some(u.role), Some(u.profileImageUrl), Some(u.favorites))
  }

  /** Saving a document again accepts it exactly when it satisfies the
      schema, and then changes nothing. */
  lemma ValidateDraftOf(u: User)
    ensures Validate(DraftOf(u)) == (if Valid(u) then Some(u) else None)
  {
  }

  /** The projection `populate('author', 'username profileImageUrl')` gives:
      never the password or the email. */
  datatype AuthorView = AuthorView(id: Id, username: string, profileImageUrl: string)

  /** The populated author of a document; null when the user no longer exists. */
  function AuthorOf(users: map<Id, User>, id: Id): (r: Option<AuthorView>)
    ensures r.Some? <==> id in users
    ensures r.Some? ==>
      r.value.id == id && r.value.username == users[id].username
      && r.value.profileImageUrl == users[id].profileImageUrl
  {
    if id in users then Some(AuthorView(id, users[id].username, users[id].profileImageUrl)) else None
  }
}
