/** The post handlers' rules: the post createPost builds, the like toggle,
    the fields updatePost may change, and the two timeline queries. */
module PostController {
  import opened Common
  import opened PostModel
  import opened UserModel
  import opened HairstyleModel
  import opened Upload

  ghost predicate TableValid(posts: map<Id, Post>)
  {
    forall id :: id in posts ==> PostModel.Valid(posts[id])
  }

  // ----- createPost -----

  /** The post createPost stores: `imageUrl` is the uploaded file's path
      (`filePath`, None when no file was uploaded), `linkedHairstyle` only
      when a truthy value was sent (None stands for undefined, null and ""). */
  function NewPost(caller: Id, text: Option<string>, linkedHairstyle: Option<Id>, filePath: Option<string>, now: nat)
    : (p: Post)
    ensures PostModel.Valid(p)
    ensures p.author == caller && p.likes == [] && p.createdAt == now
    ensures p.text == StoredText(text)
    ensures p.imageUrl == filePath
    ensures p.linkedHairstyle == linkedHairstyle
  {
    PostModel.Validate(PostDraft(Some(caller), text, filePath, linkedHairstyle, None), now).value
  }

  /** A picture attached through the upload middleware is stored under its
      destination directory. */
  lemma PostImageInDestination(caller: Id, text: Option<string>, linkedHairstyle: Option<Id>, f: UploadedFile, now: nat)
    ensures var url := NewPost(caller, text, linkedHairstyle, Some(StoredPath(f)), now).imageUrl.value;
      |url| > |Destination| && url[..|Destination|] == Destination
  {
    StoredPathInDestination(f);
  }

  /** Storing a valid post keeps the table valid. */
  lemma StoreKeepsTableValid(posts: map<Id, Post>, id: Id, p: Post)
    requires TableValid(posts) && PostModel.Valid(p)
    ensures TableValid(posts[id := p])
  {
  }

  // ----- likePost -----

  /** likePost: pull the caller when present, push the caller when absent. */
  function ToggleLike(likes: seq<Id>, user: Id): (r: seq<Id>)
    ensures user in r <==> user !in likes
    ensures forall v :: v != user ==> multiset(r)[v] == multiset(likes)[v]
    ensures user !in likes ==> r == likes + [user]
  {
    if user in likes then Pull(likes, user) else likes + [user]
  }

  /** Liking twice gives every user back the membership they had; when the
      caller had not liked the post, the list itself comes back. */
  lemma ToggleLikeTwice(likes: seq<Id>, user: Id)
    ensures forall v :: v in ToggleLike(ToggleLike(likes, user), user) <==> v in likes
    ensures user !in likes ==> ToggleLike(ToggleLike(likes, user), user) == likes
  {
    if user !in likes {
      PullPushed(likes, user);
    }
  }

  /** An unlike takes the caller out and leaves the other likers in their order. */
  lemma UnlikeKeepsOrder(before: seq<Id>, after: seq<Id>, user: Id)
    requires user !in before && user !in after
    ensures ToggleLike(before + [user] + after, user) == before + after
  {
    PullKeepsOrder(before, after, user);
  }

  // ----- updatePost -----

  /** updatePost by the author: `text || post.text` (trimmed by the setter)
      and `linkedHairstyle || post.linkedHairstyle`; nothing else changes. */
  function Edited(p: Post, text: Option<string>, linkedHairstyle: Option<Id>): (r: Post)
    ensures r.author == p.author && r.imageUrl == p.imageUrl && r.likes == p.likes && r.createdAt == p.createdAt
    ensures Truthy(text) ==> r.text == StoredText(text)
    ensures !Truthy(text) ==> r.text == p.text
    ensures linkedHairstyle.Some? ==> r.linkedHairstyle == linkedHairstyle
    ensures linkedHairstyle.None? ==> r.linkedHairstyle == p.linkedHairstyle
    ensures PostModel.Valid(p) ==> PostModel.Valid(r)
  {
    p.(text := if Truthy(text) then StoredText(text) else p.text,
       linkedHairstyle := if linkedHairstyle.Some? then linkedHairstyle else p.linkedHairstyle)
  }

  /** Sending the same update twice changes nothing the second time. */
  lemma {:induction false} EditedIdempotent(p: Post, text: Option<string>, linkedHairstyle: Option<Id>)
    ensures Edited(Edited(p, text, linkedHairstyle), text, linkedHairstyle) == Edited(p, text, linkedHairstyle)
  {
    if Truthy(text) {
      TrimIdempotent(text.value);
    }
  }

  // ----- getFeed and getUserPosts -----

  /** Newest first: every id names a post, and `createdAt` never increases
      along the list (`sort({ createdAt: -1 })`). */
  ghost predicate NewestFirst(posts: map<Id, Post>, r: seq<Id>)
  {
    (forall i :: 0 <= i < |r| ==> r[i] in posts)
    && forall i, j :: 0 <= i < j < |r| ==> posts[r[i]].createdAt >= posts[r[j]].createdAt
  }

  /** `r` is `sorted` with `id` placed at position `k`. */
  ghost predicate InsertedAt(r: seq<Id>, sorted: seq<Id>, id: Id, k: nat)
  {
    k <= |sorted| && r == sorted[..k] + [id] + sorted[k..]
  }

  /** Inserts one post id into a newest-first list: the list keeps its
      order and gains `id` at one position. */
  function InsertByDate(posts: map<Id, Post>, id: Id, sorted: seq<Id>): (r: seq<Id>)
    requires id in posts && forall x :: x in sorted ==> x in posts
    ensures exists k :: InsertedAt(r, sorted, id, k)
    decreases |sorted|
  {
    if sorted == [] || posts[sorted[0]].createdAt <= posts[id].createdAt then
      assert InsertedAt([id] + sorted, sorted, id, 0);
      [id] + sorted
    else
      var rest := InsertByDate(posts, id, sorted[1..]);
      assert exists k :: InsertedAt([sorted[0]] + rest, sorted, id, k) by {
        var k: nat :| InsertedAt(rest, sorted[1..], id, k);
        assert sorted[..k + 1] == [sorted[0]] + sorted[1..][..k];
        assert sorted[k + 1..] == sorted[1..][k..];
        assert InsertedAt([sorted[0]] + rest, sorted, id, k + 1);
      }
      [sorted[0]] + rest
  }

  /** A post at least as new as every post of a newest-first list can be put in front of it. */
  lemma ConsNewestFirst(posts: map<Id, Post>, first: Id, rest: seq<Id>)
    requires first in posts && NewestFirst(posts, rest)
    requires forall x :: x in rest ==> posts[first].createdAt >= posts[x].createdAt
    ensures NewestFirst(posts, [first] + rest)
  {
    var r := [first] + rest;
    forall i, j | 0 <= i < j < |r|
      ensures posts[r[i]].createdAt >= posts[r[j]].createdAt
    {
      assert r[j] == rest[j - 1];
      if i > 0 {
        assert r[i] == rest[i - 1];
      }
    }
  }

  /** Inserting adds exactly the one id. */
  lemma {:induction false} InsertByDateAddsOne(posts: map<Id, Post>, id: Id, sorted: seq<Id>)
    requires id in posts && forall x :: x in sorted ==> x in posts
    ensures multiset(InsertByDate(posts, id, sorted)) == multiset(sorted) + multiset{id}
    decreases |sorted|
  {
    if !(sorted == [] || posts[sorted[0]].createdAt <= posts[id].createdAt) {
      assert sorted == [sorted[0]] + sorted[1..];
      InsertByDateAddsOne(posts, id, sorted[1..]);
    }
  }

  /** Inserting into a newest-first list keeps it newest first. */
  lemma {:induction false} InsertByDateKeepsOrder(posts: map<Id, Post>, id: Id, sorted: seq<Id>)
    requires id in posts && NewestFirst(posts, sorted)
    ensures NewestFirst(posts, InsertByDate(posts, id, sorted))
    decreases |sorted|
  {
    if sorted == [] || posts[sorted[0]].createdAt <= posts[id].createdAt {
      forall x | x in sorted
        ensures posts[id].createdAt >= posts[x].createdAt
      {
        var k :| 0 <= k < |sorted| && sorted[k] == x;
        assert k == 0 || posts[sorted[0]].createdAt >= posts[sorted[k]].createdAt;
      }
      ConsNewestFirst(posts, id, sorted);
    } else {
      var first, tail := sorted[0], sorted[1..];
      assert sorted == [first] + tail;
      assert NewestFirst(posts, tail) by {
        forall i, j | 0 <= i < j < |tail|
          ensures posts[tail[i]].createdAt >= posts[tail[j]].createdAt
        {
          assert tail[i] == sorted[i + 1] && tail[j] == sorted[j + 1];
        }
      }
      InsertByDateKeepsOrder(posts, id, tail);
      InsertByDateAddsOne(posts, id, tail);
      var rest := InsertByDate(posts, id, tail);
      assert InsertByDate(posts, id, sorted) == [first] + rest;
      forall x | x in rest
        ensures posts[first].createdAt >= posts[x].createdAt
      {
        assert x in multiset(rest);
        if x != id {
          assert x in multiset(tail);
          var k :| 0 <= k < |tail| && tail[k] == x;
          assert sorted[k + 1] == x;
        }
      }
      ConsNewestFirst(posts, first, rest);
    }
  }

  /** Sorts ids of posts newest first, keeping exactly the same ids. */
  function SortNewestFirst(posts: map<Id, Post>, ids: seq<Id>): (r: seq<Id>)
    requires forall x :: x in ids ==> x in posts
    ensures NewestFirst(posts, r)
    ensures multiset(r) == multiset(ids)
  {
    if ids == [] then []
    else
      assert ids == [ids[0]] + ids[1..];
      var rest := SortNewestFirst(posts, ids[1..]);
      InsertByDateKeepsOrder(posts, ids[0], rest);
      InsertByDateAddsOne(posts, ids[0], rest);
      InsertByDate(posts, ids[0], rest)
  }

  /** The posts by any of `authors` (`{ author: { $in: authors } }`), newest first, each once. */
  function ByAuthorsNewestFirst(posts: map<Id, Post>, authors: seq<Id>): (r: seq<Id>)
    ensures forall id :: id in r <==> id in posts && posts[id].author in authors
    ensures NoDuplicates(r)
    ensures NewestFirst(posts, r)
  {
    var matching := Ascending(set id | id in posts && posts[id].author in authors);
    IncreasingNoDuplicates(matching);
    var r := SortNewestFirst(posts, matching);
    assert forall x :: x in r <==> x in multiset(r);
    assert forall x :: x in matching <==> x in multiset(matching);
    r
  }

  /** A post as the timeline queries return it: author and linked hairstyle populated. */
  datatype HairstyleCard = HairstyleCard(id: Id, name: string, imageUrls: seq<string>)

  datatype PostView = PostView(
    id: Id,
    author: Option<AuthorView>,
    text: Option<string>,
    imageUrl: Option<string>,
    linkedHairstyle: Option<HairstyleCard>,  // None also when the hairstyle no longer exists
    likes: seq<Id>,
    createdAt: nat)

  /** `populate('linkedHairstyle', 'name imageUrls')`: null when nothing is
      linked or the hairstyle no longer exists. */
  function CardOf(hairstyles: map<Id, Hairstyle>, id: Option<Id>): (r: Option<HairstyleCard>)
    ensures r.Some? <==> id.Some? && id.value in hairstyles
    ensures r.Some? ==>
      r.value.id == id.value && r.value.name == hairstyles[id.value].name
      && r.value.imageUrls == hairstyles[id.value].imageUrls
  {
    if id.Some? && id.value in hairstyles then
      Some(HairstyleCard(id.value, hairstyles[id.value].name, hairstyles[id.value].imageUrls))
    else None
  }

  /** A post with its author and linked hairstyle populated; every other
      field as stored. */
  function ViewOf(posts: map<Id, Post>, users: map<Id, User>, hairstyles: map<Id, Hairstyle>, id: Id): (v: PostView)
    requires id in posts
    ensures v.id == id
    ensures v.author == AuthorOf(users, posts[id].author)
    ensures v.linkedHairstyle == CardOf(hairstyles, posts[id].linkedHairstyle)
    ensures v.text == posts[id].text && v.imageUrl == posts[id].imageUrl
      && v.likes == posts[id].likes && v.createdAt == posts[id].createdAt
  {
    var p := posts[id];
    PostView(id, AuthorOf(users, p.author), p.text, p.imageUrl, CardOf(hairstyles, p.linkedHairstyle), p.likes, p.createdAt)
  }

  function Views(posts: map<Id, Post>, users: map<Id, User>, hairstyles: map<Id, Hairstyle>, ids: seq<Id>)
    : (r: seq<PostView>)
    requires forall x :: x in ids ==> x in posts
    ensures |r| == |ids|
    ensures forall i :: 0 <= i < |r| ==> r[i].id == ids[i] && r[i].createdAt == posts[ids[i]].createdAt
    ensures forall i :: 0 <= i < |r| ==> r[i] == ViewOf(posts, users, hairstyles, ids[i])
  {
    seq(|ids|, i requires 0 <= i < |ids| => ViewOf(posts, users, hairstyles, ids[i]))
  }

  /** The timeline lists the post `id`. */
  ghost predicate Shows(r: seq<PostView>, id: Id)
  {
    exists i :: 0 <= i < |r| && r[i].id == id
  }

  /** Each post listed once, newest first. */
  ghost predicate Timeline(r: seq<PostView>)
  {
    forall i, j :: 0 <= i < j < |r| ==> r[i].id != r[j].id && r[i].createdAt >= r[j].createdAt
  }

  /** The views of a newest-first list without duplicates keep both properties. */
  lemma ViewsOrdered(posts: map<Id, Post>, users: map<Id, User>, hairstyles: map<Id, Hairstyle>, ids: seq<Id>)
    requires NoDuplicates(ids) && NewestFirst(posts, ids)
    ensures Timeline(Views(posts, users, hairstyles, ids))
  {
    var r := Views(posts, users, hairstyles, ids);
    forall i, j | 0 <= i < j < |r|
      ensures r[i].id != r[j].id && r[i].createdAt >= r[j].createdAt
    {
      DistinctAt(ids, i, j);
    }
  }

  /** The views show exactly the listed posts. */
  lemma ViewsShow(posts: map<Id, Post>, users: map<Id, User>, hairstyles: map<Id, Hairstyle>, ids: seq<Id>)
    requires forall x :: x in ids ==> x in posts
    ensures forall id :: Shows(Views(posts, users, hairstyles, ids), id) <==> id in ids
  {
    var r := Views(posts, users, hairstyles, ids);
    forall id
      ensures Shows(r, id) <==> id in ids
    {
      if id in ids {
        var i :| 0 <= i < |ids| && ids[i] == id;
        assert r[i].id == id;
      }
    }
  }

  /** getFeed with the followed ids as a parameter: the posts of the
      followed users and of the caller, newest first, each exactly once. */
  function GetFeed(posts: map<Id, Post>, users: map<Id, User>, hairstyles: map<Id, Hairstyle>, following: seq<Id>, caller: Id)
    : (r: seq<PostView>)
    ensures forall id :: Shows(r, id) <==>
      id in posts && (posts[id].author in following || posts[id].author == caller)
    ensures Timeline(r)
    ensures forall i :: 0 <= i < |r| ==>
      r[i].id in posts && r[i] == ViewOf(posts, users, hairstyles, r[i].id)
  {
    var ids := ByAuthorsNewestFirst(posts, following + [caller]);
    ViewsOrdered(posts, users, hairstyles, ids);
    ViewsShow(posts, users, hairstyles, ids);
    Views(posts, users, hairstyles, ids)
  }

  /** getUserPosts: the posts of one user, newest first, each exactly once. */
  function GetUserPosts(posts: map<Id, Post>, users: map<Id, User>, hairstyles: map<Id, Hairstyle>, userId: Id)
    : (r: seq<PostView>)
    ensures forall id :: Shows(r, id) <==> id in posts && posts[id].author == userId
    ensures Timeline(r)
    ensures forall i :: 0 <= i < |r| ==>
      r[i].id in posts && r[i] == ViewOf(posts, users, hairstyles, r[i].id)
  {
    var ids := ByAuthorsNewestFirst(posts, [userId]);
    ViewsOrdered(posts, users, hairstyles, ids);
    ViewsShow(posts, users, hairstyles, ids);
    Views(posts, users, hairstyles, ids)
  }

  // ----- getFeed as written -----

  /** `currentUser.following` as written: the User schema declares no
      `following` path, so the loaded document has no such property. */
  function FollowingOf(u: User): (r: Option<seq<Id>>)
    ensures r.None?
  {
    None
  }

  /** The author list of getFeed as written, `[...currentUser.following,
      req.user._id]`; None is the TypeError thrown by spreading undefined
      (or by reading `following` off a missing user). */
  function FeedAuthorsAsWritten(users: map<Id, User>, caller: Id): (r: Option<seq<Id>>)
    ensures r.Some? <==> caller in users && FollowingOf(users[caller]).Some?
  {
    if caller !in users then None
    else match FollowingOf(users[caller])
      case Some(f) => Some(f + [caller])
      case None => None
  }

  /** As written, getFeed throws before querying for every caller. */
  lemma FeedAsWrittenAlwaysThrows(users: map<Id, User>, caller: Id)
    ensures FeedAuthorsAsWritten(users, caller) == None
  {
  }
}
