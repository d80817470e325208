/**
 * The Vote document (models/Vote.js): one user's vote on one post, where
 * "post" is the id of either a blog post or a comment.  Blogs and comments
 * share the single `post` reference, so a vote is identified by the pair
 * (user, post) whatever kind of target the post is.
 */
module VoteModel {
  import opened Wrappers

  /** A document id (a Mongo ObjectId, kept opaque as its hex text). */
  type ObjectId = string

  /** The values the schema's `enum` admits. */
  predicate IsVoteValue(v: int) {
    v == -1 || v == 0 || v == 1
  }

  /** The schema's `default` for the `vote` path. */
  const DefaultVote: int := 0

  /** A stored vote record. */
  datatype Vote = Vote(user: ObjectId, post: ObjectId, vote: int)

  /** Every stored record satisfies the schema. */
  predicate ValidVote(v: Vote) {
    IsVoteValue(v.vote)
  }

  /** A document as handed to `new Vote({...})`: any path may be absent. */
  datatype VoteDoc = VoteDoc(user: Option<ObjectId>, post: Option<ObjectId>, vote: Option<int>)

  /** The schema paths that can fail validation. */
  datatype PathError = UserRequired | PostRequired | VoteNotInEnum

  /** The set of paths of `doc` that fail the schema, after the default is applied. */
  function SchemaErrors(doc: VoteDoc): set<PathError> {
    (if doc.user.None? then {UserRequired} else {})
    + (if doc.post.None? then {PostRequired} else {})
    + (if doc.vote.Some? && !IsVoteValue(doc.vote.value) then {VoteNotInEnum} else {})
  }

  /**
   * Schema validation of a new document: a missing `vote` takes the default
   * 0, `user` and `post` are required, and `vote` must be one of -1, 0, 1.
   * All failing paths are reported together.
   */
  function Validate(doc: VoteDoc): (r: Result<Vote, set<PathError>>)
    ensures r.Success? <==> doc.user.Some? && doc.post.Some? && (doc.vote.None? || IsVoteValue(doc.vote.value))
    ensures r.Success? ==> r.value.user == doc.user.value && r.value.post == doc.post.value
    ensures r.Success? ==> ValidVote(r.value)
    ensures r.Success? && doc.vote.None? ==> r.value.vote == 0
    ensures r.Success? && doc.vote.Some? ==> r.value.vote == doc.vote.value
    ensures r.Failure? ==> r.error != {}
    ensures r.Failure? ==> (UserRequired in r.error <==> doc.user.None?)
    ensures r.Failure? ==> (PostRequired in r.error <==> doc.post.None?)
    ensures r.Failure? ==> (VoteNotInEnum in r.error <==> doc.vote.Some? && !IsVoteValue(doc.vote.value))
  {
    var errors := SchemaErrors(doc);
    if errors == {} then
      var v := match doc.vote case Some(x) => x case None => DefaultVote;
      Success(Vote(doc.user.value, doc.post.value, v))
    else
      Failure(errors)
  }
}
