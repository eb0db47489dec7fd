/** The database the handlers share: four tables keyed by document id and
    the counter the ids come from. Each state-changing handler is a method
    that updates the tables in place, in the order the handler does. */
module Database {
  import opened Common
  import opened UserModel
  import opened PostModel
  import opened CommentModel
  import opened HairstyleModel
  import opened Upload
  import CommentController
  import PostController
  import UserController
  import HairstyleController

  /** Every id was handed out already, every user, post and hairstyle
      passes its schema, e-mails are unique and the comment linkage is
      consistent (see CommentController.Consistent). */
  ghost predicate TablesValid(users: map<Id, User>, posts: map<Id, Post>, comments: map<Id, Comment>,
                              hairstyles: map<Id, Hairstyle>, nextId: nat)
  {
    KeysBelow(users, nextId) && KeysBelow(posts, nextId)
    && KeysBelow(comments, nextId) && KeysBelow(hairstyles, nextId)
    && UserController.TableValid(users)
    && PostController.TableValid(posts)
    && HairstyleController.TableValid(hairstyles)
    && CommentController.Consistent(comments, posts)
  }

  /** Storing a valid post under the next id keeps the tables valid. */
  lemma PostStoredKeepsValid(users: map<Id, User>, posts: map<Id, Post>, comments: map<Id, Comment>,
                             hairstyles: map<Id, Hairstyle>, nextId: nat, post: Post)
    requires TablesValid(users, posts, comments, hairstyles, nextId) && PostModel.Valid(post)
    ensures TablesValid(users, posts[nextId := post], comments, hairstyles, nextId + 1)
  {
    CommentController.MorePostsKeepConsistent(comments, posts, posts[nextId := post]);
    PostController.StoreKeepsTableValid(posts, nextId, post);
  }

  /** Replacing the user table by a valid one with no new ids keeps the tables valid. */
  lemma UsersStoredKeepsValid(users: map<Id, User>, posts: map<Id, Post>, comments: map<Id, Comment>,
                              hairstyles: map<Id, Hairstyle>, nextId: nat, newUsers: map<Id, User>)
    requires TablesValid(users, posts, comments, hairstyles, nextId)
    requires UserController.TableValid(newUsers) && newUsers.Keys <= users.Keys
    ensures TablesValid(newUsers, posts, comments, hairstyles, nextId)
  {
  }

  /** Replacing the comment table by a consistent one whose ids are old or
      the next one keeps the tables valid once the counter moves past it. */
  lemma CommentsStoredKeepsValid(users: map<Id, User>, posts: map<Id, Post>, comments: map<Id, Comment>,
                                 hairstyles: map<Id, Hairstyle>, nextId: nat, newComments: map<Id, Comment>)
    requires TablesValid(users, posts, comments, hairstyles, nextId)
    requires CommentController.Consistent(newComments, posts) && newComments.Keys <= comments.Keys + {nextId}
    ensures TablesValid(users, posts, newComments, hairstyles, nextId + 1)
  {
  }

  class Store {
    var users: map<Id, User>
    var posts: map<Id, Post>
    var comments: map<Id, Comment>
    var hairstyles: map<Id, Hairstyle>
    /** The next id the database hands out; ids are never reused. */
    var nextId: nat

    /** The store's tables satisfy TablesValid. */
    ghost predicate Valid()
      reads this
    {
      TablesValid(users, posts, comments, hairstyles, nextId)
    }

    constructor ()
      ensures Valid()
      ensures users == map[] && posts == map[] && comments == map[] && hairstyles == map[]
    {
      users, posts, comments, hairstyles := map[], map[], map[], map[];
      nextId := 0;
    }

    // ----- commentController -----

    /** createComment: 404 when the post is missing, otherwise a top-level
        comment by the caller under a fresh id. */
    method CreateComment(caller: Caller, postId: Id, text: Option<string>) returns (status: Status, id: Option<Id>)
      requires Valid()
      modifies this
      ensures Valid()
      ensures status == NotFound <==> postId !in old(posts)
      ensures status == Ok || status == NotFound
      ensures status == NotFound ==> comments == old(comments) && nextId == old(nextId) && id.None?
      ensures status == Ok ==>
        id == Some(old(nextId)) && nextId == old(nextId) + 1
        && comments == old(comments)[old(nextId) := CommentController.TopLevel(text, caller.id, postId)]
      ensures users == old(users) && posts == old(posts) && hairstyles == old(hairstyles)
    {
      if postId !in posts {
        return NotFound, None;
      }
      CommentController.CreateKeepsConsistent(comments, posts, nextId, text, caller.id, postId);
      comments := comments[nextId := CommentController.TopLevel(text, caller.id, postId)];
      status, id := Ok, Some(nextId);
      nextId := nextId + 1;
      assert KeysBelow(users, nextId) && KeysBelow(posts, nextId);
      assert KeysBelow(comments, nextId) && KeysBelow(hairstyles, nextId);
    }

    /** replyToComment: 404 when the parent is missing; otherwise the reply is
        saved under a fresh id on the parent's post, then its id is pushed
        onto the parent's replies. */
    method ReplyToComment(caller: Caller, parentId: Id, text: Option<string>) returns (status: Status, id: Option<Id>)
      requires Valid()
      modifies this
      ensures Valid()
      ensures status == NotFound <==> parentId !in old(comments)
      ensures status == Ok || status == NotFound
      ensures status == NotFound ==> comments == old(comments) && nextId == old(nextId) && id.None?
      ensures status == Ok ==>
        id == Some(old(nextId)) && nextId == old(nextId) + 1
        && comments == CommentController.WithReply(old(comments), parentId, old(nextId), text, caller.id)
      ensures users == old(users) && posts == old(posts) && hairstyles == old(hairstyles)
    {
      if parentId !in comments {
        return NotFound, None;
      }
      var parent := comments[parentId];
      var replyId := nextId;
      CommentController.ReplyKeepsConsistent(comments, posts, parentId, replyId, text, caller.id);
      ghost var expected := CommentController.WithReply(comments, parentId, replyId, text, caller.id);
      CommentsStoredKeepsValid(users, posts, comments, hairstyles, nextId, expected);
      comments := comments[replyId := CommentController.ReplyTo(parent, parentId, text, caller.id)];
      parent := parent.(replies := parent.replies + [replyId]);
      comments := comments[parentId := parent];
      assert comments == expected;
      nextId := nextId + 1;
      status, id := Ok, Some(replyId);
    }

    /** updateComment: 404 when missing, 401 for anyone but the author,
        otherwise `text || comment.text`. */
    method UpdateComment(caller: Caller, commentId: Id, text: Option<string>) returns (status: Status)
      requires Valid()
      modifies this
      ensures Valid()
      ensures status == NotFound <==> commentId !in old(comments)
      ensures status == Unauthorized <==> commentId in old(comments) && old(comments)[commentId].author != caller.id
      ensures status == Ok || status == NotFound || status == Unauthorized
      ensures status != Ok ==> comments == old(comments)
      ensures status == Ok ==> comments == CommentController.WithText(old(comments), commentId, text)
      ensures users == old(users) && posts == old(posts) && hairstyles == old(hairstyles) && nextId == old(nextId)
    {
      if commentId !in comments {
        return NotFound;
      }
      var comment := comments[commentId];
      if comment.author != caller.id {
        return Unauthorized;
      }
      CommentController.UpdateKeepsConsistent(comments, posts, commentId, text);
      comment := comment.(text := OrElseOpt(text, comment.text));
      comments := comments[commentId := comment];
      status := Ok;
    }

    /** deleteComment: 404 when missing; the author, the post's author or an
        admin may delete; the id is pulled from the parent's replies, then
        the comment alone is removed. On a valid store it never crashes. */
    method DeleteComment(caller: Caller, commentId: Id) returns (status: Status)
      requires Valid()
      modifies this
      ensures Valid()
      ensures status == NotFound <==> commentId !in old(comments)
      ensures status != Crashed
      ensures commentId in old(comments) ==> status == CommentController.DeleteAuthorization(old(comments)[commentId], old(posts), caller)
      ensures status == Ok <==>
        commentId in old(comments)
        && (old(comments)[commentId].author == caller.id
            || old(posts)[old(comments)[commentId].post].author == caller.id
            || caller.role == AdminRole)
      ensures status != Ok ==> comments == old(comments)
      ensures status == Ok ==> comments == CommentController.Without(old(comments), commentId)
      ensures users == old(users) && posts == old(posts) && hairstyles == old(hairstyles) && nextId == old(nextId)
    {
      if commentId !in comments {
        return NotFound;
      }
      var comment := comments[commentId];
      CommentController.DeleteAuthorizationIff(comments, posts, commentId, caller);
      status := CommentController.DeleteAuthorization(comment, posts, caller);
      if status != Ok {
        return;
      }
      CommentController.DeleteKeepsConsistent(comments, posts, commentId);
      ghost var expected := CommentController.Without(comments, commentId);
      if comment.parentComment.Some? && comment.parentComment.value in comments {
        var parent := comments[comment.parentComment.value];
        comments := comments[comment.parentComment.value := parent.(replies := Pull(parent.replies, commentId))];
      }
      comments := comments - {commentId};
      assert comments == expected;
    }

    // ----- postController -----

    /** createPost: always stored, under a fresh id. */
    method CreatePost(caller: Caller, text: Option<string>, linkedHairstyle: Option<Id>, filePath: Option<string>, now: nat)
      returns (id: Id)
      requires Valid()
      modifies this
      ensures Valid()
      ensures id == old(nextId) && nextId == old(nextId) + 1
      ensures posts == old(posts)[id := PostController.NewPost(caller.id, text, linkedHairstyle, filePath, now)]
      ensures users == old(users) && comments == old(comments) && hairstyles == old(hairstyles)
    {
      id := nextId;
      var post := PostController.NewPost(caller.id, text, linkedHairstyle, filePath, now);
      PostStoredKeepsValid(users, posts, comments, hairstyles, nextId, post);
      posts := posts[id := post];
      nextId := nextId + 1;
    }

    /** likePost: 404 when missing; otherwise the caller's like is toggled. */
    method LikePost(caller: Caller, postId: Id) returns (status: Status)
      requires Valid()
      modifies this
      ensures Valid()
      ensures status == NotFound <==> postId !in old(posts)
      ensures status == Ok || status == NotFound
      ensures status == NotFound ==> posts == old(posts)
      ensures status == Ok ==>
        posts == old(posts)[postId := old(posts)[postId].(likes := PostController.ToggleLike(old(posts)[postId].likes, caller.id))]
      ensures users == old(users) && comments == old(comments) && hairstyles == old(hairstyles) && nextId == old(nextId)
    {
      if postId !in posts {
        return NotFound;
      }
      var post := posts[postId];
      if caller.id in post.likes {
        post := post.(likes := Pull(post.likes, caller.id));
      } else {
        post := post.(likes := post.likes + [caller.id]);
      }
      CommentController.MorePostsKeepConsistent(comments, posts, posts[postId := post]);
      posts := posts[postId := post];
      status := Ok;
    }

    /** deletePost: 404 when missing, 401 for anyone but the author (no
        admin override); otherwise the post's comments, then the post, go. */
    method DeletePost(caller: Caller, postId: Id) returns (status: Status)
      requires Valid()
      modifies this
      ensures Valid()
      ensures status == NotFound <==> postId !in old(posts)
      ensures status == Unauthorized <==> postId in old(posts) && old(posts)[postId].author != caller.id
      ensures status == Ok || status == NotFound || status == Unauthorized
      ensures status != Ok ==> posts == old(posts) && comments == old(comments)
      ensures status == Ok ==>
        posts == old(posts) - {postId} && comments == CommentController.WithoutPost(old(comments), postId)
      ensures users == old(users) && hairstyles == old(hairstyles) && nextId == old(nextId)
    {
      if postId !in posts {
        return NotFound;
      }
      if posts[postId].author != caller.id {
        return Unauthorized;
      }
      CommentController.CascadeKeepsConsistent(comments, posts, postId);
      comments := CommentController.WithoutPost(comments, postId);
      posts := posts - {postId};
      status := Ok;
    }

    /** updatePost: 404 when missing, 401 for anyone but the author;
        otherwise `text || post.text` and `linkedHairstyle || post.linkedHairstyle`. */
    method UpdatePost(caller: Caller, postId: Id, text: Option<string>, linkedHairstyle: Option<Id>) returns (status: Status)
      requires Valid()
      modifies this
      ensures Valid()
      ensures status == NotFound <==> postId !in old(posts)
      ensures status == Unauthorized <==> postId in old(posts) && old(posts)[postId].author != caller.id
      ensures status == Ok || status == NotFound || status == Unauthorized
      ensures status != Ok ==> posts == old(posts)
      ensures status == Ok ==> posts == old(posts)[postId := PostController.Edited(old(posts)[postId], text, linkedHairstyle)]
      ensures users == old(users) && comments == old(comments) && hairstyles == old(hairstyles) && nextId == old(nextId)
    {
      if postId !in posts {
        return NotFound;
      }
      var post := posts[postId];
      if post.author != caller.id {
        return Unauthorized;
      }
      post := post.(text := if Truthy(text) then StoredText(text) else post.text);
      post := post.(linkedHairstyle := if linkedHairstyle.Some? then linkedHairstyle else post.linkedHairstyle);
      CommentController.MorePostsKeepConsistent(comments, posts, posts[postId := post]);
      posts := posts[postId := post];
      status := Ok;
    }

    // ----- userController -----

    /** registerUser: 400 when the address is held; a refused save when a
        required field is missing; otherwise a new user under a fresh id. */
    method RegisterUser(username: Option<string>, email: Option<string>, password: Option<string>)
      returns (status: Status, session: Option<UserController.Session>)
      requires Valid()
      modifies this
      ensures Valid()
      ensures var r := UserController.Register(old(users), old(nextId), username, email, password);
        status == r.status && users == r.users && session == r.session
      ensures nextId == (if status == Ok then old(nextId) + 1 else old(nextId))
      ensures posts == old(posts) && comments == old(comments) && hairstyles == old(hairstyles)
    {
      if UserController.EmailHeld(users, email) {
        return BadRequest, None;
      }
      var created := UserModel.Validate(UserDraft(username, email, password, None, None, None));
      if created.None? {
        return Rejected, None;
      }
      UserController.RegisterKeepsTableValid(users, nextId, username, email, password);
      var id := nextId;
      users := users[id := created.value];
      nextId := nextId + 1;
      assert KeysBelow(users, nextId) && KeysBelow(posts, nextId);
      assert KeysBelow(comments, nextId) && KeysBelow(hairstyles, nextId);
      status, session := Ok, Some(UserController.SessionOf(id, created.value));
    }

    /** updateUserProfile: 404 when the caller is gone; the fields are
        assigned one by one on the loaded document, then saved; a save the
        unique index refuses leaves the table as it was. */
    method UpdateUserProfile(caller: Caller, username: Option<string>, email: Option<string>,
      password: Option<string>, filePath: Option<string>)
      returns (status: Status, body: Option<UserController.UpdatedProfile>)
      requires Valid()
      modifies this
      ensures Valid()
      ensures var r := UserController.UpdateProfile(old(users), caller.id, username, email, password, filePath);
        status == r.status && users == r.users && body == r.body
      ensures posts == old(posts) && comments == old(comments) && hairstyles == old(hairstyles) && nextId == old(nextId)
    {
      if caller.id !in users {
        return NotFound, None;
      }
      var user := users[caller.id];
      user := user.(username := OrElse(username, user.username));
      user := user.(email := OrElse(email, user.email));
      if filePath.Some? {
        user := user.(profileImageUrl := UserController.ProfileImageUrl(filePath.value));
      }
      if Truthy(password) {
        user := user.(password := password.value);
      }
      if !UserModel.Valid(user) || UserController.EmailTakenByOther(users, caller.id, user.email) {
        return Rejected, None;
      }
      assert user == UserController.UpdatedUser(users[caller.id], username, email, password, filePath);
      UserController.UpdateProfileKeepsTableValid(users, caller.id, username, email, password, filePath);
      UsersStoredKeepsValid(users, posts, comments, hairstyles, nextId, users[caller.id := user]);
      users := users[caller.id := user];
      status := Ok;
      body := Some(UserController.UpdatedProfile(caller.id, user.username, user.email, user.role, user.profileImageUrl,
                                                 UserController.Token(caller.id)));
    }

    /** deleteUserProfile: removes the caller's document only; posts and
        comments by the caller stay. */
    method DeleteUserProfile(caller: Caller) returns (status: Status)
      requires Valid()
      modifies this
      ensures Valid()
      ensures status == NotFound <==> caller.id !in old(users)
      ensures status == Ok || status == NotFound
      ensures status == NotFound ==> users == old(users)
      ensures status == Ok ==> users == old(users) - {caller.id}
      ensures posts == old(posts) && comments == old(comments) && hairstyles == old(hairstyles) && nextId == old(nextId)
    {
      if caller.id !in users {
        return NotFound;
      }
      users := users - {caller.id};
      status := Ok;
    }

    // ----- hairstyleController -----

    /** createHairstyle: the supplied fields under a fresh id, or a refused save. */
    method CreateHairstyle(input: HairstyleController.HairstyleInput) returns (status: Status, id: Option<Id>)
      requires Valid()
      modifies this
      ensures Valid()
      ensures status == Ok || status == Rejected
      ensures status == Rejected <==> HairstyleController.Created(input).None?
      ensures status == Rejected ==> hairstyles == old(hairstyles) && nextId == old(nextId) && id.None?
      ensures status == Ok ==>
        id == Some(old(nextId)) && nextId == old(nextId) + 1
        && hairstyles == old(hairstyles)[old(nextId) := HairstyleController.Created(input).value]
      ensures users == old(users) && posts == old(posts) && comments == old(comments)
    {
      var created := HairstyleController.Created(input);
      if created.None? {
        return Rejected, None;
      }
      hairstyles := hairstyles[nextId := created.value];
      status, id := Ok, Some(nextId);
      nextId := nextId + 1;
      assert KeysBelow(users, nextId) && KeysBelow(posts, nextId);
      assert KeysBelow(comments, nextId) && KeysBelow(hairstyles, nextId);
    }

    /** updateHairstyle: 404 when missing; the six fields are assigned one by
        one on the loaded document, then saved. */
    method UpdateHairstyle(hairstyleId: Id, input: HairstyleController.HairstyleInput) returns (status: Status)
      requires Valid()
      modifies this
      ensures Valid()
      ensures status == NotFound <==> hairstyleId !in old(hairstyles)
      ensures status == Ok || status == NotFound || status == Rejected
      ensures hairstyleId in old(hairstyles) ==>
        (status == Ok <==> HairstyleController.Updated(old(hairstyles)[hairstyleId], input).Some?)
      ensures status != Ok ==> hairstyles == old(hairstyles)
      ensures status == Ok ==>
        hairstyles == old(hairstyles)[hairstyleId := HairstyleController.Merged(old(hairstyles)[hairstyleId], input)]
      ensures users == old(users) && posts == old(posts) && comments == old(comments) && nextId == old(nextId)
    {
      if hairstyleId !in hairstyles {
        return NotFound;
      }
      var h := hairstyles[hairstyleId];
      h := h.(name := OrElse(input.name, h.name));
      h := h.(description := OrElse(input.description, h.description));
      h := h.(imageUrls := OrElseList(input.imageUrls, h.imageUrls));
      h := h.(tags := OrElseList(input.tags, h.tags));
      h := h.(suitableFaceShapes := OrElseList(input.suitableFaceShapes, h.suitableFaceShapes));
      h := h.(gender := OrElse(input.gender, h.gender));
      if !HairstyleModel.Valid(h) {
        return Rejected;
      }
      hairstyles := hairstyles[hairstyleId := h];
      status := Ok;
    }

    /** deleteHairstyle: removes exactly that document; posts linking it keep the id. */
    method DeleteHairstyle(hairstyleId: Id) returns (status: Status)
      requires Valid()
      modifies this
      ensures Valid()
      ensures status == NotFound <==> hairstyleId !in old(hairstyles)
      ensures status == Ok || status == NotFound
      ensures status == NotFound ==> hairstyles == old(hairstyles)
      ensures status == Ok ==> hairstyles == old(hairstyles) - {hairstyleId}
      ensures users == old(users) && posts == old(posts) && comments == old(comments) && nextId == old(nextId)
    {
      if hairstyleId !in hairstyles {
        return NotFound;
      }
      hairstyles := hairstyles - {hairstyleId};
      status := Ok;
    }
  }
}
