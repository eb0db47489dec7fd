/** The comment handlers' rules on the comment table: the reply linkage the
    handlers keep, the table each handler leaves behind, who may delete,
    and the top-level listing with populated replies. */
module CommentController {
  import opened Common
  import opened CommentModel
  import opened PostModel
  import opened UserModel

  // ----- Consistency of the comment table -----

  /** Every id in a comment's replies names an existing comment that points
      back to that comment and belongs to the same post. */
  ghost predicate RepliesPointBack(cs: map<Id, Comment>)
  {
    forall o, r :: o in cs && r in cs[o].replies ==>
      r in cs && cs[r].parentComment == Some(o) && cs[r].post == cs[o].post
  }

  /** A reply whose parent still exists is listed by that parent. */
  ghost predicate ParentsListReplies(cs: map<Id, Comment>)
  {
    forall c :: c in cs && cs[c].parentComment.Some? && cs[c].parentComment.value in cs ==>
      c in cs[cs[c].parentComment.value].replies
  }

  ghost predicate RepliesDistinct(cs: map<Id, Comment>)
  {
    forall o :: o in cs ==> NoDuplicates(cs[o].replies)
  }

  /** No comment outlives its post. */
  ghost predicate OnExistingPosts(cs: map<Id, Comment>, posts: map<Id, Post>)
  {
    forall c :: c in cs ==> cs[c].post in posts
  }

  /** A reply is created after its parent, so it has the larger id. */
  ghost predicate ParentsOlder(cs: map<Id, Comment>)
  {
    forall c :: c in cs && cs[c].parentComment.Some? ==> cs[c].parentComment.value < c
  }

  ghost predicate Consistent(cs: map<Id, Comment>, posts: map<Id, Post>)
  {
    RepliesPointBack(cs) && ParentsListReplies(cs) && RepliesDistinct(cs) && ParentsOlder(cs)
    && OnExistingPosts(cs, posts)
  }

  /** `id` is newer than every stored comment, as a freshly handed-out id is. */
  ghost predicate Newer(cs: map<Id, Comment>, id: Id)
  {
    forall c :: c in cs ==> c < id
  }

  // ----- The records the handlers create -----

  /** createComment: a comment by the caller on the post, with no parent. */
  function TopLevel(text: Option<string>, author: Id, postId: Id): (c: Comment)
    ensures c.text == text && c.author == author && c.post == postId
    ensures c.parentComment.None? && c.replies == []
  {
    Comment(text, author, postId, None, [])
  }

  /** replyToComment: a comment by the caller on the parent's post, pointing at the parent. */
  function ReplyTo(parent: Comment, parentId: Id, text: Option<string>, author: Id): (c: Comment)
    ensures c.text == text && c.author == author
    ensures c.post == parent.post && c.parentComment == Some(parentId) && c.replies == []
  {
    Comment(text, author, parent.post, Some(parentId), [])
  }

  // ----- The table after each handler -----

  /** replyToComment: the reply is stored under the fresh id `id`, then its
      id is pushed onto the parent's replies. */
  function WithReply(cs: map<Id, Comment>, parentId: Id, id: Id, text: Option<string>, author: Id)
    : (r: map<Id, Comment>)
    requires parentId in cs && Newer(cs, id)
    ensures r.Keys == cs.Keys + {id}
    ensures r[id] == ReplyTo(cs[parentId], parentId, text, author)
    ensures r[parentId] == cs[parentId].(replies := cs[parentId].replies + [id])
    ensures forall c :: c in cs && c != parentId ==> r[c] == cs[c]
  {
    var stored := cs[id := ReplyTo(cs[parentId], parentId, text, author)];
    stored[parentId := stored[parentId].(replies := stored[parentId].replies + [id])]
  }

  /** updateComment by the author: `comment.text = text || comment.text`. */
  function WithText(cs: map<Id, Comment>, id: Id, text: Option<string>): (r: map<Id, Comment>)
    requires id in cs
    ensures r.Keys == cs.Keys
    ensures forall c :: c in cs && c != id ==> r[c] == cs[c]
    ensures r[id].author == cs[id].author && r[id].post == cs[id].post
      && r[id].parentComment == cs[id].parentComment && r[id].replies == cs[id].replies
    ensures Truthy(text) ==> r[id].text == text
    ensures !Truthy(text) ==> r[id].text == cs[id].text
  {
    cs[id := cs[id].(text := OrElseOpt(text, cs[id].text))]
  }

  /** deleteComment once authorized: `$pull` the id from the parent's replies
      (nothing happens when the parent is gone), then remove the comment.
      The comment's own replies stay. */
  function Without(cs: map<Id, Comment>, id: Id): (r: map<Id, Comment>)
    requires id in cs
    ensures r.Keys == cs.Keys - {id}
  {
    var parent := cs[id].parentComment;
    var pulled :=
      if parent.Some? && parent.value in cs then
        cs[parent.value := cs[parent.value].(replies := Pull(cs[parent.value].replies, id))]
      else cs;
    pulled - {id}
  }

  /** `Comment.deleteMany({ post: postId })`. */
  function WithoutPost(cs: map<Id, Comment>, postId: Id): (r: map<Id, Comment>)
    ensures forall c :: c in r <==> c in cs && cs[c].post != postId
    ensures forall c :: c in r ==> r[c] == cs[c]
  {
    map c | c in cs && cs[c].post != postId :: cs[c]
  }

  /** The authorization test of deleteComment, evaluated left to right as
      `&&` does: the comment's author passes without the post being read;
      anyone else needs the post, and reading the author of a missing post
      crashes; then the post's author and an admin pass. */
  function DeleteAuthorization(c: Comment, posts: map<Id, Post>, caller: Caller): (r: Status)
    ensures r == Ok || r == Unauthorized || r == Crashed
    ensures r == Crashed <==> c.author != caller.id && c.post !in posts
    ensures r == Ok <==>
      c.author == caller.id || (c.post in posts && (posts[c.post].author == caller.id || caller.role == AdminRole))
  {
    if c.author == caller.id then Ok
    else if c.post !in posts then Crashed
    else if posts[c.post].author == caller.id || caller.role == AdminRole then Ok
    else Unauthorized
  }

  /** On a consistent table the post is always there, so the test never
      crashes, and it passes exactly for the comment's author, the post's
      author and an admin. */
  lemma DeleteAuthorizationIff(cs: map<Id, Comment>, posts: map<Id, Post>, id: Id, caller: Caller)
    requires Consistent(cs, posts) && id in cs
    ensures DeleteAuthorization(cs[id], posts, caller) != Crashed
    ensures DeleteAuthorization(cs[id], posts, caller) == Ok <==>
      cs[id].author == caller.id || posts[cs[id].post].author == caller.id || caller.role == AdminRole
  {
  }

  // ----- Each handler keeps the table consistent -----

  lemma CreateKeepsConsistent(cs: map<Id, Comment>, posts: map<Id, Post>, id: Id, text: Option<string>, author: Id, postId: Id)
    requires Consistent(cs, posts) && Newer(cs, id) && postId in posts
    ensures Consistent(cs[id := TopLevel(text, author, postId)], posts)
  {
    var r := cs[id := TopLevel(text, author, postId)];
    forall o, x | o in r && x in r[o].replies
      ensures x in r && r[x].parentComment == Some(o) && r[x].post == r[o].post
    {
      assert o in cs && x in cs[o].replies;
      assert x in cs && x < id;
    }
    forall c | c in r && r[c].parentComment.Some? && r[c].parentComment.value in r
      ensures c in r[r[c].parentComment.value].replies
    {
      assert c in cs && r[c].parentComment.value < c < id;
    }
  }

  lemma ReplyKeepsRepliesPointBack(cs: map<Id, Comment>, parentId: Id, id: Id, text: Option<string>, author: Id)
    requires RepliesPointBack(cs) && parentId in cs && Newer(cs, id)
    ensures RepliesPointBack(WithReply(cs, parentId, id, text, author))
  {
    var r := WithReply(cs, parentId, id, text, author);
    forall o, x | o in r && x in r[o].replies
      ensures x in r && r[x].parentComment == Some(o) && r[x].post == r[o].post
    {
      if o == parentId && x == id {
        assert r[id].parentComment == Some(parentId);
      } else {
        assert x in cs[o].replies;
        assert x in cs && x < id;
      }
    }
  }

  lemma ReplyKeepsParentsListReplies(cs: map<Id, Comment>, parentId: Id, id: Id, text: Option<string>, author: Id)
    requires ParentsListReplies(cs) && ParentsOlder(cs) && parentId in cs && Newer(cs, id)
    ensures ParentsListReplies(WithReply(cs, parentId, id, text, author))
  {
    var r := WithReply(cs, parentId, id, text, author);
    forall c | c in r && r[c].parentComment.Some? && r[c].parentComment.value in r
      ensures c in r[r[c].parentComment.value].replies
    {
      if c != id {
        var p := cs[c].parentComment.value;
        assert p < c < id;
        assert c in cs[p].replies;
      }
    }
  }

  lemma ReplyKeepsRepliesDistinct(cs: map<Id, Comment>, parentId: Id, id: Id, text: Option<string>, author: Id)
    requires RepliesPointBack(cs) && RepliesDistinct(cs) && parentId in cs && Newer(cs, id)
    ensures RepliesDistinct(WithReply(cs, parentId, id, text, author))
  {
    var r := WithReply(cs, parentId, id, text, author);
    forall o | o in r
      ensures NoDuplicates(r[o].replies)
    {
      if o == parentId {
        // the fresh id is not listed yet
        assert id !in cs[parentId].replies;
        NoDuplicatesAppend(cs[parentId].replies, id);
      } else if o == id {
        assert r[o].replies == [];
      } else {
        assert r[o] == cs[o];
      }
    }
  }

  lemma ReplyKeepsConsistent(cs: map<Id, Comment>, posts: map<Id, Post>, parentId: Id, id: Id, text: Option<string>, author: Id)
    requires Consistent(cs, posts) && parentId in cs && Newer(cs, id)
    ensures Consistent(WithReply(cs, parentId, id, text, author), posts)
  {
    ReplyKeepsRepliesPointBack(cs, parentId, id, text, author);
    ReplyKeepsParentsListReplies(cs, parentId, id, text, author);
    ReplyKeepsRepliesDistinct(cs, parentId, id, text, author);
  }

  /** What Without leaves at a surviving comment: the same comment, with the
      deleted id pulled from its replies when it was the deleted comment's parent. */
  lemma WithoutEntry(cs: map<Id, Comment>, id: Id, c: Id)
    requires id in cs && c in Without(cs, id)
    ensures c in cs && c != id
    ensures Without(cs, id)[c] ==
      if cs[id].parentComment == Some(c) then cs[c].(replies := Pull(cs[c].replies, id)) else cs[c]
  {
  }

  lemma DeleteKeepsRepliesPointBack(cs: map<Id, Comment>, id: Id)
    requires RepliesPointBack(cs) && id in cs
    ensures RepliesPointBack(Without(cs, id))
  {
    var r := Without(cs, id);
    forall o, x | o in r && x in r[o].replies
      ensures x in r && r[x].parentComment == Some(o) && r[x].post == r[o].post
    {
      WithoutEntry(cs, id, o);
      if cs[id].parentComment == Some(o) {
        assert x in Pull(cs[o].replies, id);
      } else {
        assert x in cs[o].replies;
      }
      assert x in cs[o].replies && x != id;
      WithoutEntry(cs, id, x);
    }
  }

  lemma DeleteKeepsParentsListReplies(cs: map<Id, Comment>, id: Id)
    requires ParentsListReplies(cs) && id in cs
    ensures ParentsListReplies(Without(cs, id))
  {
    var r := Without(cs, id);
    forall c | c in r && r[c].parentComment.Some? && r[c].parentComment.value in r
      ensures c in r[r[c].parentComment.value].replies
    {
      WithoutEntry(cs, id, c);
      var p := cs[c].parentComment.value;
      WithoutEntry(cs, id, p);
      assert c in cs[p].replies;
    }
  }

  lemma DeleteKeepsRepliesDistinct(cs: map<Id, Comment>, id: Id)
    requires RepliesDistinct(cs) && id in cs
    ensures RepliesDistinct(Without(cs, id))
  {
    var r := Without(cs, id);
    forall o | o in r
      ensures NoDuplicates(r[o].replies)
    {
      WithoutEntry(cs, id, o);
      assert NoDuplicates(cs[o].replies);
    }
  }

  lemma DeleteKeepsConsistent(cs: map<Id, Comment>, posts: map<Id, Post>, id: Id)
    requires Consistent(cs, posts) && id in cs
    ensures Consistent(Without(cs, id), posts)
  {
    var r := Without(cs, id);
    DeleteKeepsRepliesPointBack(cs, id);
    DeleteKeepsParentsListReplies(cs, id);
    DeleteKeepsRepliesDistinct(cs, id);
    forall c | c in r
      ensures r[c].post in posts && (r[c].parentComment.Some? ==> r[c].parentComment.value < c)
    {
      WithoutEntry(cs, id, c);
    }
  }

  lemma CascadeKeepsConsistent(cs: map<Id, Comment>, posts: map<Id, Post>, postId: Id)
    requires Consistent(cs, posts)
    ensures Consistent(WithoutPost(cs, postId), posts - {postId})
  {
    var r := WithoutPost(cs, postId);
    forall o, x | o in r && x in r[o].replies
      ensures x in r && r[x].parentComment == Some(o) && r[x].post == r[o].post
    {
      assert x in cs[o].replies;
    }
  }

  /** Adding or changing posts keeps the comment table consistent: only the
      existence of each comment's post matters. */
  lemma MorePostsKeepConsistent(cs: map<Id, Comment>, posts: map<Id, Post>, more: map<Id, Post>)
    requires Consistent(cs, posts) && posts.Keys <= more.Keys
    ensures Consistent(cs, more)
  {
  }

  /** `r` holds the same comments as `cs`, linked the same way. */
  ghost predicate SameLinks(cs: map<Id, Comment>, r: map<Id, Comment>)
  {
    r.Keys == cs.Keys
    && forall c :: c in cs ==>
      r[c].post == cs[c].post && r[c].parentComment == cs[c].parentComment && r[c].replies == cs[c].replies
  }

  /** Consistency depends only on the links between comments. */
  lemma SameLinksKeepConsistent(cs: map<Id, Comment>, r: map<Id, Comment>, posts: map<Id, Post>)
    requires Consistent(cs, posts) && SameLinks(cs, r)
    ensures Consistent(r, posts)
  {
    forall o, x | o in r && x in r[o].replies
      ensures x in r && r[x].parentComment == Some(o) && r[x].post == r[o].post
    {
      assert x in cs[o].replies;
    }
  }

  lemma UpdateKeepsConsistent(cs: map<Id, Comment>, posts: map<Id, Post>, id: Id, text: Option<string>)
    requires Consistent(cs, posts) && id in cs
    ensures Consistent(WithText(cs, id, text), posts)
  {
    var r := WithText(cs, id, text);
    assert SameLinks(cs, r);
    SameLinksKeepConsistent(cs, r, posts);
  }

  // ----- What deleting a reply does -----

  /** Deleting a reply removes exactly one comment and exactly one entry of
      its parent's replies; the parent stays. */
  lemma {:induction false} DeleteReplyUnlinks(cs: map<Id, Comment>, posts: map<Id, Post>, id: Id, parentId: Id)
    requires Consistent(cs, posts) && id in cs && cs[id].parentComment == Some(parentId) && parentId in cs
    ensures var r := Without(cs, id);
      |r| == |cs| - 1 && parentId in r && id !in r[parentId].replies
      && |r[parentId].replies| == |cs[parentId].replies| - 1
  {
    var s: seq<Id> := cs[parentId].replies;
    assert id in s;
    assert multiset(s)[id] == 1;
    assert Without(cs, id).Keys == cs.Keys - {id};
  }

  /** Deleting a comment removes no other comment: in particular its own
      replies stay in the table, now pointing at a missing parent. */
  lemma DeleteDoesNotCascade(cs: map<Id, Comment>, id: Id)
    requires id in cs
    ensures forall c :: c in cs && c != id ==> c in Without(cs, id)
    ensures forall c :: c in cs && c != id && Some(c) != cs[id].parentComment ==> Without(cs, id)[c] == cs[c]
  {
  }

  // ----- getComments -----

  /** The ids of the top-level comments of a post in natural order. */
  function TopLevelIds(cs: map<Id, Comment>, postId: Id): (r: seq<Id>)
    ensures forall id :: id in r <==> id in cs && cs[id].post == postId && cs[id].parentComment.None?
    ensures Increasing(r)
  {
    Ascending(set id | id in cs && cs[id].post == postId && cs[id].parentComment.None?)
  }

  /** A populated reply: its author is resolved to the safe projection. */
  datatype ReplyView = ReplyView(
    id: Id,
    text: Option<string>,
    author: Option<AuthorView>,
    post: Id,
    parentComment: Option<Id>,
    replies: seq<Id>)

  /** A populated top-level comment with its populated replies. */
  datatype ThreadView = ThreadView(
    id: Id,
    text: Option<string>,
    author: Option<AuthorView>,
    post: Id,
    replies: seq<ReplyView>)

  /** A reply as `populate('replies')` returns it: its own fields, with the
      author id replaced by the author's projection; its own replies stay ids. */
  function ReplyViewOf(cs: map<Id, Comment>, users: map<Id, User>, id: Id): (v: ReplyView)
    requires id in cs
    ensures v.id == id && v.text == cs[id].text && v.post == cs[id].post
    ensures v.author == AuthorOf(users, cs[id].author)
    ensures v.parentComment == cs[id].parentComment && v.replies == cs[id].replies
  {
    var c := cs[id];
    ReplyView(id, c.text, AuthorOf(users, c.author), c.post, c.parentComment, c.replies)
  }

  /** `populate('replies')`: the listed comments that still exist, in list order. */
  function ReplyViews(cs: map<Id, Comment>, users: map<Id, User>, ids: seq<Id>): (r: seq<ReplyView>)
    ensures |r| <= |ids|
    ensures forall v :: v in r ==> v.id in ids && v.id in cs && v == ReplyViewOf(cs, users, v.id)
  {
    if ids == [] then []
    else
      var rest := ReplyViews(cs, users, ids[1..]);
      if ids[0] in cs then [ReplyViewOf(cs, users, ids[0])] + rest else rest
  }

  /** When every listed id exists, each of them is populated, in list order. */
  lemma {:induction false} ReplyViewsComplete(cs: map<Id, Comment>, users: map<Id, User>, ids: seq<Id>)
    requires forall x :: x in ids ==> x in cs
    ensures |ReplyViews(cs, users, ids)| == |ids|
    ensures forall i :: 0 <= i < |ids| ==>
      ids[i] in cs && ReplyViews(cs, users, ids)[i] == ReplyViewOf(cs, users, ids[i])
  {
    if ids != [] {
      var rest := ReplyViews(cs, users, ids[1..]);
      ReplyViewsComplete(cs, users, ids[1..]);
      assert ids[0] in ids;
      var r := ReplyViews(cs, users, ids);
      assert r == [ReplyViewOf(cs, users, ids[0])] + rest;
      forall i | 0 <= i < |ids|
        ensures ids[i] in cs && r[i] == ReplyViewOf(cs, users, ids[i])
      {
        assert ids[i] in ids;
        if i > 0 {
          assert r[i] == rest[i - 1] && ids[i] == ids[1..][i - 1];
        }
      }
    }
  }

  /** A top-level comment as getComments returns it: author projected,
      replies populated. */
  function ThreadOf(cs: map<Id, Comment>, users: map<Id, User>, id: Id): (t: ThreadView)
    requires id in cs
    ensures t.id == id && t.text == cs[id].text && t.post == cs[id].post
    ensures t.author == AuthorOf(users, cs[id].author)
    ensures t.replies == ReplyViews(cs, users, cs[id].replies)
  {
    var c := cs[id];
    ThreadView(id, c.text, AuthorOf(users, c.author), c.post, ReplyViews(cs, users, c.replies))
  }

  /** getComments: the post's top-level comments in natural order, each with
      its replies populated. */
  function GetComments(cs: map<Id, Comment>, users: map<Id, User>, postId: Id): (r: seq<ThreadView>)
    ensures |r| == |TopLevelIds(cs, postId)|
    ensures forall i :: 0 <= i < |r| ==>
      r[i].id == TopLevelIds(cs, postId)[i] && r[i].id in cs && r[i].post == postId
      && cs[r[i].id].parentComment.None?
    ensures forall i :: 0 <= i < |r| ==> r[i] == ThreadOf(cs, users, TopLevelIds(cs, postId)[i])
  {
    var ids := TopLevelIds(cs, postId);
    seq(|ids|, i requires 0 <= i < |ids| => ThreadOf(cs, users, ids[i]))
  }

  /** When every listed reply points back to its parent, as on a consistent
      table, every listed reply is populated, in list order,
      and each populated reply points back to its thread and shares its post. */
  lemma GetCommentsNestsReplies(cs: map<Id, Comment>, users: map<Id, User>, postId: Id, i: nat)
    requires RepliesPointBack(cs) && i < |GetComments(cs, users, postId)|
    ensures var t := GetComments(cs, users, postId)[i];
      |t.replies| == |cs[t.id].replies|
      && forall j :: 0 <= j < |t.replies| ==>
        t.replies[j].id == cs[t.id].replies[j] && t.replies[j].parentComment == Some(t.id)
        && t.replies[j].post == postId
  {
    var ids := TopLevelIds(cs, postId);
    var t := GetComments(cs, users, postId)[i];
    assert t == ThreadOf(cs, users, ids[i]);
    var rs := cs[t.id].replies;
    assert forall x :: x in rs ==> x in cs;
    ReplyViewsComplete(cs, users, rs);
    assert cs[t.id].post == postId;
    forall j | 0 <= j < |t.replies|
      ensures t.replies[j].id == rs[j] && t.replies[j].parentComment == Some(t.id) && t.replies[j].post == postId
    {
      assert rs[j] in rs;
      assert rs[j] in cs && cs[rs[j]].parentComment == Some(t.id) && cs[rs[j]].post == cs[t.id].post;
      assert t.replies[j] == ReplyViewOf(cs, users, rs[j]);
    }
  }

  /** A reply never shows up as a top-level comment: replying leaves every
      post's top-level listing as it was. */
  lemma ReplyKeepsTopLevel(cs: map<Id, Comment>, parentId: Id, id: Id, text: Option<string>, author: Id, postId: Id)
    requires parentId in cs && Newer(cs, id)
    ensures TopLevelIds(WithReply(cs, parentId, id, text, author), postId) == TopLevelIds(cs, postId)
  {
    var r := WithReply(cs, parentId, id, text, author);
    var before := set x | x in cs && cs[x].post == postId && cs[x].parentComment.None?;
    var after := set x | x in r && r[x].post == postId && r[x].parentComment.None?;
    forall x | x in r
      ensures x in after <==> x in before
    {
      if x == id {
        assert r[x].parentComment.Some?;
      } else {
        assert x in cs;
        assert r[x].post == cs[x].post && r[x].parentComment == cs[x].parentComment;
      }
    }
    assert after == before;
    assert TopLevelIds(r, postId) == Ascending(after);
    assert TopLevelIds(cs, postId) == Ascending(before);
  }

  /** The thread scenario: B comments "nice cut" on A's post, A replies
      "thanks!"; the post lists one thread holding exactly that reply with
      A's projection. When B then deletes the comment, the listing is empty
      and the reply survives as an orphan. */
  lemma ThreadScenario(users: map<Id, User>, posts: map<Id, Post>, a: Id, b: Id, p: Id, c1: Id, c2: Id)
    requires p in posts && posts[p].author == a && c1 < c2
    ensures var cs1 := map[c1 := TopLevel(Some("nice cut"), b, p)];
      var cs2 := WithReply(cs1, c1, c2, Some("thanks!"), a);
      GetComments(cs2, users, p)
        == [ThreadView(c1, Some("nice cut"), AuthorOf(users, b), p,
                       [ReplyView(c2, Some("thanks!"), AuthorOf(users, a), p, Some(c1), [])])]
      && DeleteAuthorization(cs2[c1], posts, Caller(b, "user")) == Ok
      && GetComments(Without(cs2, c1), users, p) == []
      && c2 in Without(cs2, c1)
  {
    var cs1 := map[c1 := TopLevel(Some("nice cut"), b, p)];
    var cs2 := WithReply(cs1, c1, c2, Some("thanks!"), a);
    ThreadScenarioListing(users, p, a, b, c1, c2);
    var cs3 := Without(cs2, c1);
    assert (set x | x in cs3 && cs3[x].post == p && cs3[x].parentComment.None?) == {};
  }

  /** The listing of the scenario after the reply. */
  lemma ThreadScenarioListing(users: map<Id, User>, p: Id, a: Id, b: Id, c1: Id, c2: Id)
    requires c1 < c2
    ensures var cs2 := WithReply(map[c1 := TopLevel(Some("nice cut"), b, p)], c1, c2, Some("thanks!"), a);
      GetComments(cs2, users, p)
        == [ThreadView(c1, Some("nice cut"), AuthorOf(users, b), p,
                       [ReplyView(c2, Some("thanks!"), AuthorOf(users, a), p, Some(c1), [])])]
  {
    var cs1 := map[c1 := TopLevel(Some("nice cut"), b, p)];
    var cs2 := WithReply(cs1, c1, c2, Some("thanks!"), a);
    assert (set x | x in cs2 && cs2[x].post == p && cs2[x].parentComment.None?) == {c1};
    assert Ascending({c1}) == [c1];
    assert ReplyViews(cs2, users, [c2]) == [ReplyViewOf(cs2, users, c2)];
  }
}
