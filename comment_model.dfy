/** The Comment document. Its schema file is not part of this model; the
    fields are the ones the comment handlers read and write. */
module CommentModel {
  import opened Common

  datatype Comment = Comment(
    text: Option<string>,
    author: Id,
    post: Id,
    parentComment: Option<Id>,  // absent on a top-level comment
    replies: seq<Id>)           // ids of the comments that answer this one
}
