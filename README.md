# A verified model of the hairstyle-community API handlers

The API server keeps four MongoDB collections: users, posts, comments (with
one level of `replies` ids per comment, to any depth) and hairstyles. Express
handlers create, read, update and delete their documents. Here the collections
are maps from document id to record. The handlers are:

- pure functions for the queries and for each document a handler builds;
- methods of one `Database.Store` class for the handlers that change the tables.

The class invariant (`Database.TablesValid`) states seven things:

- every id was handed out already;
- every user, post and hairstyle passes its Mongoose schema;
- e-mails are unique;
- every comment's post exists;
- replies and parents point at each other and share a post;
- no replies list holds an id twice;
- a reply's id is larger than its parent's, because both come from one counter and the parent is stored first.

Every state-changing handler keeps the invariant. Each one states its status
and its new tables in terms of the pure functions. The lemmas about those
functions carry the handlers' promises:

- the like toggle and its inverse;
- the JavaScript `||` merges of the update handlers;
- the comment linkage under reply, delete and cascade;
- newest-first timelines;
- the upload filter and file naming;
- the schema round-trips.

Modules, one per source file: `Common` (ids, `Option`, statuses, truthiness,
`$pull`, natural order), `UserModel`, `HairstyleModel`, `PostModel`,
`ReviewModel`, `CommentModel`, `Upload`, `CommentController`,
`PostController`, `UserController`, `HairstyleController` and `Database`.

Conventions:

- Document ids are natural numbers handed out by a counter (`nextId`), so a
  collection's natural order is ascending id and `findOne` finds the least
  matching id.
- A request-body field is an `Option`. `None` stands for undefined or null.
  A string is truthy when present and non-empty; any array is truthy.
- `Status` names each response: `Ok` (200/201), `BadRequest` (400),
  `Unauthorized` (401), `NotFound` (404) and `Crashed`. `Rejected` is a save
  that the schema validators or the unique index refuse; the source answers
  that with a 500 or leaves the request hanging. `Crashed` is the
  TypeError of `deleteComment` when the post is missing.

## Model

| member | source | states |
|---|---|---|
| Common.Pull | controllers/commentController.js:121-123 | `$pull` removes every occurrence of the id, every other id keeps its number of occurrences, and a list without the id is returned unchanged |
| Common.PullConcat | controllers/commentController.js:121-123 | pulling from a concatenation is pulling from each part, parts kept in order: with PullSingle this fixes `$pull` as the in-order list of the ids that are not the pulled one |
| Common.PullCons | controllers/commentController.js:121-123 | one step of `$pull`: the head is dropped when it is the pulled id and kept in front otherwise |
| Common.PullSingle | controllers/commentController.js:121-123 | on one element, the pulled id is dropped and any other id is kept |
| Common.PullKeepsOrder | controllers/commentController.js:121-123 | the ids before and after a pulled occurrence stay, in their order |
| Common.Get | controllers/commentController.js:11 | `findById`: a document exactly when the id is stored, and then the stored one |
| Common.Truthy | controllers/commentController.js:97 | a string field is truthy unless it is undefined, null or "" |
| Common.OrElse | controllers/userController.js:78-79 | `given \|\| current`: the given string when truthy, the stored one otherwise; the result is truthy when either operand is |
| Common.OrElseOpt | controllers/commentController.js:97 | the same `\|\|` when the stored value may be absent; the result is truthy when either operand is |
| Common.OrElseList | controllers/hairstyleController.js:54-56 | `given \|\| current` on arrays: any array sent wins, even an empty one; the stored array stays only when none is sent |
| Common.PullPushed | controllers/postController.js:67-73 | pulling an id just pushed onto a list that did not hold it gives the list back |
| Common.Least | controllers/userController.js:14 | the first document in natural order: a member of the set no larger than any other |
| Common.Ascending | controllers/hairstyleController.js:22 | a collection's natural order: exactly the ids of the set, each once, strictly increasing |
| UserModel.Validate | models/User.js:4-24 | a save is accepted iff username, email and password are non-empty and the role is in {user, admin}; role defaults to "user", profileImageUrl to "", favorites to [] |
| UserModel.ValidateDraftOf | models/User.js:4-24 | saving a document again accepts it exactly when it satisfies the schema, and then changes nothing |
| UserModel.AuthorOf | controllers/commentController.js:43 | `populate('author', 'username profileImageUrl')`: present exactly when the user exists, with only the id, username and profile picture |
| HairstyleModel.Validate | models/Hairstyle.js:3-24 | accepted iff name and description are non-empty, no image url is empty and gender is one of the three enum values; arrays default to [], averageRating and numReviews to 0 |
| HairstyleModel.ValidateDraftOf | models/Hairstyle.js:3-24 | re-saving accepts exactly the valid documents, unchanged |
| ReviewModel.Validate | models/Review.js:4-17 | accepted iff the rating is present and between 1 and 5 and both references are present; the comment is optional and kept as given |
| ReviewModel.ValidateDraftOf | models/Review.js:4-17 | re-saving accepts exactly the valid reviews, unchanged |
| PostModel.TrimStartDropsSpace | models/Post.js:10-13 | the left trim is a suffix not starting with white space, and only white space was dropped |
| PostModel.TrimEndDropsSpace | models/Post.js:10-13 | the right trim is a prefix not ending with white space, and only white space was dropped |
| PostModel.Trim | models/Post.js:10-13 | the trimmed text has no white space at either end |
| PostModel.TrimmedIff | models/Post.js:10-13 | trim leaves a string alone exactly when it has no white space at either end |
| PostModel.TrimIdempotent | models/Post.js:10-13 | trimming twice is trimming once |
| PostModel.TrimIsInfix | models/Post.js:10-13 | the trimmed text occurs in the original, with only white space before and after it |
| PostModel.InfixAt | models/Post.js:10-13 | the same fact for the two trimming steps, left then right |
| PostModel.StoredText | models/Post.js:10-13 | absent text stays absent; present text is stored trimmed |
| PostModel.Validate | models/Post.js:3-27 | `Post.create` succeeds iff an author is given; text trimmed, imageUrl and linkedHairstyle as given, likes default to [], createdAt is the given time |
| Upload.Lower | middleware/uploadMiddleware.js:16 | `toLowerCase`: same length, each character lower-cased |
| Upload.ContainsIff | middleware/uploadMiddleware.js:15-17 | the regular-expression test finds a literal exactly when it occurs at some position |
| Upload.Contains | middleware/uploadMiddleware.js:15-17 | the unanchored search: a literal is found only in a string at least as long, and the empty literal always |
| Upload.CheckFileType | middleware/uploadMiddleware.js:14-24 | accepted iff the lower-cased extension and the mimetype each contain "jpg", "jpeg" or "png" somewhere; otherwise rejected with the fixed message |
| Upload.ExtensionCaseInsensitive | middleware/uploadMiddleware.js:16 | lower-casing the extension beforehand changes no verdict |
| Upload.UnanchoredAndCaseFolded | middleware/uploadMiddleware.js:15-17 | ".pngx" with "image/png" and ".JPG" with "image/jpeg" are accepted |
| Upload.MimetypeCaseSensitive | middleware/uploadMiddleware.js:17 | "IMAGE/PNG" is rejected even with a ".png" extension |
| Upload.ContainsFirstChar | middleware/uploadMiddleware.js:15 | a string the search finds a literal in holds the literal's first character |
| Upload.Decimal | middleware/uploadMiddleware.js:10 | the timestamp's decimal text is never empty |
| Upload.DecimalDigits | middleware/uploadMiddleware.js:10 | the timestamp's text consists of decimal digits |
| Upload.DecimalNoLeadingZero | middleware/uploadMiddleware.js:10 | only zero is written with a leading 0 |
| Upload.DecimalRoundTrip | middleware/uploadMiddleware.js:10 | reading the digits back gives the timestamp |
| Upload.StoredFilename | middleware/uploadMiddleware.js:10 | the name starts with the field name and "-", ends with the extension, and is as long as those plus the timestamp's digits |
| Upload.StoredPath | middleware/uploadMiddleware.js:5-11 | the path is the destination "uploads/" followed by the stored filename |
| Upload.StoredFilenameRoundTrip | middleware/uploadMiddleware.js:8-11 | the stored name is fieldname, "-", the timestamp's digits, then the extension, and the timestamp can be read back from it |
| Upload.StoredPathInDestination | middleware/uploadMiddleware.js:5-7 | every stored path starts with "uploads/" |
| CommentController.TopLevel | controllers/commentController.js:14-18 | the comment createComment builds: the given text, the caller as author, the post, no parent and no replies |
| CommentController.ReplyTo | controllers/commentController.js:65-70 | the reply: the given text, the caller as author, the parent's post, a pointer to the parent, no replies |
| CommentController.WithReply | controllers/commentController.js:62-76 | after a reply: the fresh id is added, the reply is on the parent's post and points at the parent, the parent's replies gain the id at the end, every other comment is unchanged |
| CommentController.Without | controllers/commentController.js:119-126 | deleting removes exactly that one comment |
| CommentController.WithoutEntry | controllers/commentController.js:119-126 | each surviving comment is unchanged, except that the parent loses the deleted id from its replies |
| CommentController.WithoutPost | controllers/postController.js:95 | `deleteMany({ post })` keeps exactly the comments on other posts, unchanged |
| CommentController.WithText | controllers/commentController.js:97 | only that comment's text changes: a truthy text replaces it, a falsy one keeps it; its links and every other comment stay |
| CommentController.DeleteAuthorization | controllers/commentController.js:113-117 | Crashed exactly when the caller is not the comment's author and the post is missing (the `&&` chain then reads `post.author`); Ok exactly for the comment's author, the post's author or an admin; Unauthorized otherwise |
| CommentController.DeleteAuthorizationIff | controllers/commentController.js:113-117 | on a consistent table the check never crashes and passes exactly for the comment's author, the post's author or an admin |
| CommentController.CreateKeepsConsistent | controllers/commentController.js:14-20 | a new top-level comment on an existing post keeps the linkage consistent |
| CommentController.ReplyKeepsRepliesPointBack | controllers/commentController.js:65-76 | after a reply every listed reply exists, points back to the comment listing it and shares its post |
| CommentController.ReplyKeepsParentsListReplies | controllers/commentController.js:65-76 | after a reply every comment whose parent exists is listed by that parent |
| CommentController.ReplyKeepsRepliesDistinct | controllers/commentController.js:75 | pushing the fresh id keeps every replies list free of duplicates |
| CommentController.ReplyKeepsConsistent | controllers/commentController.js:62-76 | replying keeps the whole linkage invariant |
| CommentController.DeleteKeepsRepliesPointBack | controllers/commentController.js:119-126 | after a delete every listed reply still exists and points back |
| CommentController.DeleteKeepsParentsListReplies | controllers/commentController.js:119-126 | after a delete every comment whose parent exists is still listed by it |
| CommentController.DeleteKeepsRepliesDistinct | controllers/commentController.js:121-123 | pulling keeps the replies lists free of duplicates |
| CommentController.DeleteKeepsConsistent | controllers/commentController.js:108-132 | deleting keeps the linkage invariant, orphaned replies included |
| CommentController.CascadeKeepsConsistent | controllers/postController.js:94-97 | deleting a post's comments, then the post, keeps the linkage invariant, and no comment outlives its post |
| CommentController.MorePostsKeepConsistent | controllers/postController.js:25 | adding or editing posts never breaks the comment linkage |
| CommentController.SameLinksKeepConsistent | controllers/commentController.js:97-98 | a change that leaves post, parent and replies alone keeps the invariant |
| CommentController.UpdateKeepsConsistent | controllers/commentController.js:97-98 | editing a comment's text keeps the invariant |
| CommentController.DeleteReplyUnlinks | controllers/commentController.js:120-126 | deleting a reply removes exactly one comment and exactly one entry of its parent's replies; the parent stays |
| CommentController.DeleteDoesNotCascade | controllers/commentController.js:126 | deleting a comment removes no other comment, and only its parent can change |
| CommentController.TopLevelIds | controllers/commentController.js:39-42 | exactly the comments on the post with no parent, in natural order |
| CommentController.ReplyViews | controllers/commentController.js:44-50 | populating replies yields only existing comments from the list, with their author projections |
| CommentController.ReplyViewOf | controllers/commentController.js:44-50 | a populated reply: its stored fields, the author replaced by the projection, its own replies left as ids |
| CommentController.ThreadOf | controllers/commentController.js:43-50 | a populated top-level comment: its stored fields, the author projected, its replies populated |
| CommentController.ReplyViewsComplete | controllers/commentController.js:44-50 | when every listed id exists, each one is populated, in list order |
| CommentController.GetComments | controllers/commentController.js:36-53 | one thread per top-level comment of the post, in natural order; thread i is `ThreadOf` its id: the stored text and post, the author projected and the replies populated, each reply's author projected too |
| CommentController.GetCommentsNestsReplies | controllers/commentController.js:39-50 | each thread holds all of its replies in order, each pointing back to it and on the same post |
| CommentController.ReplyKeepsTopLevel | controllers/commentController.js:65-70 | a reply never appears as a top-level comment: replying leaves every post's listing as it was |
| CommentController.ThreadScenario | controllers/commentController.js:58-132 | B comments, A replies: one thread with A's reply; B may delete; then the listing is empty and the reply survives as an orphan |
| CommentController.ThreadScenarioListing | controllers/commentController.js:36-53 | the listing in that scenario, exactly |
| PostController.NewPost | controllers/postController.js:8-25 | the created post: the caller as author, trimmed text, the upload's path as imageUrl, the hairstyle when one was sent, no likes, the given creation time; it is valid |
| PostController.PostImageInDestination | controllers/postController.js:16-18 | an uploaded picture's imageUrl lies under "uploads/" |
| PostController.StoreKeepsTableValid | controllers/postController.js:25 | storing a valid post keeps every post valid |
| PostController.ToggleLike | controllers/postController.js:63-74 | the caller's membership flips; every other user keeps their number of occurrences; an absent caller is appended at the end |
| PostController.ToggleLikeTwice | controllers/postController.js:67-73 | liking twice restores every user's membership, and the list itself when the caller had not liked |
| PostController.UnlikeKeepsOrder | controllers/postController.js:67-69 | an unlike removes the caller and leaves the other likers in their order |
| PostController.Edited | controllers/postController.js:120-121 | updatePost changes text only for a truthy text (stored trimmed) and the hairstyle only when one is sent; author, image, likes and date stay; validity is kept |
| PostController.EditedIdempotent | controllers/postController.js:119-124 | sending the same update twice changes nothing the second time |
| PostController.ConsNewestFirst | controllers/postController.js:43 | a post no older than a newest-first list can go in front of it |
| PostController.InsertByDate | controllers/postController.js:43 | the result is the list with the id placed at one position, every other id in its order |
| PostController.InsertByDateAddsOne | controllers/postController.js:43 | inserting adds exactly the one id |
| PostController.InsertByDateKeepsOrder | controllers/postController.js:43 | inserting keeps a list newest first |
| PostController.SortNewestFirst | controllers/postController.js:43 | `sort({ createdAt: -1 })`: newest first and a permutation of the input |
| PostController.ByAuthorsNewestFirst | controllers/postController.js:42-43 | exactly the posts whose author is listed, each once, newest first |
| PostController.CardOf | controllers/postController.js:45 | `populate('linkedHairstyle', 'name imageUrls')`: present exactly when a hairstyle is linked and still exists, with its id, name and image urls |
| PostController.ViewOf | controllers/postController.js:44-45 | one populated post: author and hairstyle projected, every other field as stored |
| PostController.Views | controllers/postController.js:44-45 | one populated view per id, in order: the `ViewOf` that id, carrying its post's date |
| PostController.ViewsOrdered | controllers/postController.js:42-45 | the views of a duplicate-free newest-first list are distinct and newest first |
| PostController.ViewsShow | controllers/postController.js:42-45 | the views show exactly the listed posts |
| PostController.GetFeed | controllers/postController.js:36-48 | with the followed ids as input: exactly the posts by followed users and by the caller, each once, newest first by the stored date; each entry is `ViewOf` its post, with the author and hairstyle projected |
| PostController.GetUserPosts | controllers/postController.js:52-58 | exactly the posts of that user, each once, newest first by the stored date; each entry is `ViewOf` its post, with the author and hairstyle projected |
| PostController.FollowingOf | controllers/postController.js:40 | reading `following` off a user document gives undefined: models/User.js:4-24 declares no such path |
| PostController.FeedAuthorsAsWritten | controllers/postController.js:37-40 | the author list as written exists exactly when the caller's document exists and has a `following` array; otherwise the lookup or the spread throws |
| PostController.FeedAsWrittenAlwaysThrows | controllers/postController.js:37-40 | as written, building the author list throws for every caller |
| UserController.FindByEmail | controllers/userController.js:14 | `findOne({ email })`: some user holds the address iff a result is found, and the result is the first such user in natural order |
| UserController.FindByEmailUnique | models/User.js:6 | with unique e-mails the user found is the only holder |
| UserController.EmailHeld | controllers/userController.js:14-15 | the 400 test: an e-mail was sent and some user holds it |
| UserController.SessionOf | controllers/userController.js:20-26 | the answer body: id, username, e-mail, role and a token for that id; no password |
| UserController.Register | controllers/userController.js:11-31 | 400 exactly when the address is held; success exactly when it is free and the three fields are truthy, adding one user with the default role and profile picture and answering without the password; otherwise nothing changes |
| UserController.RegisterKeepsTableValid | controllers/userController.js:14-18 | the e-mail check guards the unique index: registration keeps the users valid and their e-mails unique |
| UserController.RegisterTwiceRefused | controllers/userController.js:14-17 | a second registration with the same address is refused with 400 |
| UserController.Login | controllers/userController.js:35-53 | a session only for the user holding the address when the password matches; with unique e-mails, exactly then |
| UserController.RegisterThenLogin | controllers/userController.js:11-53 | a user who just registered logs in with the same address and password |
| UserController.GetUserProfile | controllers/userController.js:57-70 | id, username, e-mail and role of the caller; 404 exactly when the caller is missing |
| UserController.ProfileAgreesWithLogin | controllers/userController.js:57-70 | the profile shows what the login response showed |
| UserController.ProfileImageUrl | controllers/userController.js:85 | a slash followed by the upload's path |
| UserController.ProfileImageInDestination | controllers/userController.js:82-86 | an uploaded profile picture's URL starts with "/uploads/" |
| UserController.UpdatedUser | controllers/userController.js:78-90 | username and e-mail replaced only by truthy values, the picture only when a file came, the password only when a truthy one came; role and favorites kept; validity kept |
| UserController.UpdatedUserIdempotent | controllers/userController.js:78-90 | sending the same update twice changes nothing the second time |
| UserController.UpdatedUserEmpty | controllers/userController.js:78-90 | an update whose username, e-mail and password are each absent or "" and that carries no file saves the document as it was |
| UserController.EmailTakenByOther | controllers/userController.js:91 | the unique-index refusal: with unique e-mails, another user holds the address exactly when `findOne` would find a user other than the caller |
| UserController.UpdateProfile | controllers/userController.js:75-103 | 404 exactly when the caller is missing; for a valid stored document, refused exactly when another user holds the new address; otherwise only the caller's document changes and the answer carries a fresh token |
| UserController.UpdateProfileKeepsTableValid | controllers/userController.js:91 | the update keeps the users valid and their e-mails unique |
| UserController.DeleteProfile | controllers/userController.js:107-119 | removes exactly the caller's document; 404 exactly when it is missing |
| UserController.RegisterThenDelete | controllers/userController.js:107-119 | deleting the account just registered gives the user table back |
| HairstyleController.Created | controllers/hairstyleController.js:5-16 | saved iff the schema accepts the supplied fields; stores exactly those fields, with empty arrays for undefined ones and zero counters |
| HairstyleController.CreatedInputOf | controllers/hairstyleController.js:5-16 | every valid hairstyle with fresh counters can be created from its own fields |
| HairstyleController.Merged | controllers/hairstyleController.js:52-57 | each string field replaced only by a truthy value, each array whenever one is sent (even empty); counters kept |
| HairstyleController.MergedFalsyKeeps | controllers/hairstyleController.js:52-57 | a body of absent or empty strings leaves the document unchanged |
| HairstyleController.MergedEmptyArrayOverwrites | controllers/hairstyleController.js:54-56 | an empty array clears the stored one |
| HairstyleController.MergedIdempotent | controllers/hairstyleController.js:52-57 | the same update twice changes nothing the second time |
| HairstyleController.MergedInputOf | controllers/hairstyleController.js:52-57 | sending every field of a document reproduces that document |
| HairstyleController.Updated | controllers/hairstyleController.js:52-59 | the save succeeds exactly when the merged document is valid, which holds for a valid document and an input whose gender and image urls are acceptable |
| HairstyleController.AllHairstyles | controllers/hairstyleController.js:20-27 | every stored hairstyle exactly once, with its document, in natural order |
| HairstyleController.HairstyleById | controllers/hairstyleController.js:31-42 | the document with that id; 404 exactly when it is missing |
| HairstyleController.ListingAgreesWithLookup | controllers/hairstyleController.js:20-42 | each listed document is what the lookup by its id answers |
| Database.PostStoredKeepsValid | controllers/postController.js:25 | storing a valid post under the next id keeps the store invariant |
| Database.UsersStoredKeepsValid | controllers/userController.js:91 | a valid user table with no new ids keeps the store invariant |
| Database.CommentsStoredKeepsValid | controllers/commentController.js:72-76 | a consistent comment table with only the next id added keeps the store invariant |
| Database.Store.CreateComment | controllers/commentController.js:7-31 | 404 with no change when the post is missing; otherwise one top-level comment by the caller under a fresh id |
| Database.Store.ReplyToComment | controllers/commentController.js:58-83 | 404 with no change when the parent is missing; otherwise the table becomes `WithReply` under a fresh id |
| Database.Store.UpdateComment | controllers/commentController.js:87-104 | 404, then 401 for a non-author with no change; otherwise `text \|\| comment.text` |
| Database.Store.DeleteComment | controllers/commentController.js:108-132 | 404 when missing; never crashes on a valid store; succeeds exactly for author, post author or admin, and then the table becomes `Without` |
| Database.Store.CreatePost | controllers/postController.js:8-32 | the post `NewPost` builds, under a fresh id |
| Database.Store.LikePost | controllers/postController.js:63-80 | 404 with no change when missing; otherwise only that post's likes are toggled |
| Database.Store.DeletePost | controllers/postController.js:84-104 | 404, then 401 for anyone but the author (no admin override); otherwise the post and exactly its comments are removed |
| Database.Store.UpdatePost | controllers/postController.js:109-130 | 404, then 401 for a non-author; otherwise the post becomes `Edited` |
| Database.Store.RegisterUser | controllers/userController.js:11-31 | the status, users and answer of `Register` with the next id |
| Database.Store.UpdateUserProfile | controllers/userController.js:75-103 | the field-by-field assignments give the status, users and answer of `UpdateProfile` |
| Database.Store.DeleteUserProfile | controllers/userController.js:107-119 | removes only the caller's document; posts and comments stay |
| Database.Store.CreateHairstyle | controllers/hairstyleController.js:5-16 | the `Created` document under a fresh id, or a refused save with no change |
| Database.Store.UpdateHairstyle | controllers/hairstyleController.js:46-67 | 404 with no change when missing; otherwise the six assignments, saved exactly when the merged document is valid |
| Database.Store.DeleteHairstyle | controllers/hairstyleController.js:71-84 | removes exactly that document; 404 with no change when missing |

## Left out

- Password hashing (models/User.js:27-38) is not modelled. The stored password is the one supplied. `matchPassword` is the `matches` parameter of `UserController.Login`. The pre-save hook calls `next()` without returning, so it re-hashes on every save; that behaviour is not modelled.
- JWT signing (controllers/userController.js:5-7) is not modelled. A token is `Token(id)`, which records only the id it carries.
- Database round-trips are not modelled: the re-fetch after `create`/`save`, the `populate` calls beyond the author and hairstyle projections, and the response bodies that echo a whole document. `populate` is a lookup in the user and hairstyle maps; a missing author or hairstyle gives `None`.
- Concurrency: the two-step reply (save, then push) and delete (pull, then delete) run as one sequential method each.
- Floating point: `averageRating` is a Dafny `real` that no modelled handler changes from its default, 0. A review's rating is an integer, checked against its bounds.
- Clock and library inputs are parameters: `Date.now()` and `createdAt` (`now`); `path.extname` (`UploadedFile.extension`); the uploaded file's path (`filePath`).
- `path.join` and multer's path building are string concatenation (`Destination + name`).
- HairstyleController.Created: an array field (`imageUrls`, `tags`, `suitableFaceShapes`) sent as JSON `null` is an absent field here and is stored as `[]`. Mongoose applies a default only to an undefined value, so it would keep `null` and getHairstyles would answer `null`. The model does not distinguish `null` from undefined in request bodies.
- Upload.Lower: lower-cases ASCII letters only. No other character lower-cases to a letter of "jpg", "jpeg" or "png", so the filter's verdict is the same as with full Unicode case mapping.
- UserController.Login: e-mail and password are plain strings.
- UserController.Register: an absent e-mail in a register body is read as matching nobody (`EmailHeld`), so validation then refuses the save (`Rejected`). This is a reading of Mongoose's `findOne({ email: undefined })`, not an observed result: if Mongoose drops the undefined key, the query finds the first user and the handler answers 400 instead.
- The 500 responses of the catch blocks are left out. A save refused by a validator or the unique index is `Rejected`.
- The Comment schema (models/Comment.js) is not part of this model. The Comment record holds the fields the handlers use.
- Routing, authentication middleware (`protect`), Swagger, rate limiting, the Mongo connection and `listen` (routes/userRoutes.js, index.js, public/swagger-custom.js) are not modelled. The authenticated caller is a `Caller` parameter.
- No handler of the modelled files stores reviews. The review routes (routes/reviewRoutes.js, which index.js requires but never mounts itself; its comment at line 79 places them inside the hairstyle routes) and any rating aggregation behind them are outside the modelled files. The Review schema is modelled on its own.
- Database.Store methods: each states its new tables through the controller functions. What those functions mean is proved about the functions, not repeated in the method contracts.

## Findings

| source | as written | input that shows it | evidently intended | confidence | as-written member | corrected member |
|---|---|---|---|---|---|---|
| controllers/postController.js:37-40 | the author list is `[...currentUser.following, req.user._id]`, but the User schema (models/User.js:4-24) declares no `following` path, so `following` is undefined and spreading it throws a TypeError | any authenticated caller requesting the feed | the posts of the users the caller follows and of the caller, newest first | medium, not executed (models/User.js:4-24 declares no `following`) | PostController.FeedAsWrittenAlwaysThrows | PostController.GetFeed |
