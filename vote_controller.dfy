/**
 * The request handlers of controllers/voteController.js over mutable state:
 * the Vote collection and the votable targets are fields that each handler
 * updates in place, with the same `+= 1` / `-= 1` adjustments of
 * `totalVotes` as the source.  Every handler is proved to perform exactly
 * the step the specification in module VoteLedger describes, so the
 * properties proved there (one record per key, totals equal to tallies,
 * idempotence) carry over to the controller.
 */
module VoteController {
  import opened Wrappers
  import opened VoteModel
  import opened VoteLedger

  class Controller {
    /** The Vote collection, in insertion order. */
    var votes: seq<Vote>
    /** The blog posts and comments, by id, with their `totalVotes`. */
    var targets: map<ObjectId, Target>

    /** Record-level invariants: one record per (user, post), every value in the enum. */
    ghost predicate Valid()
      reads this
    {
      WellFormed(votes)
    }

    /** The state as a value of the specification. */
    function State(): Store
      reads this
    {
      Store(votes, targets)
    }

    /** An empty Vote collection beside targets whose totals are all at their default 0. */
    constructor (initial: map<ObjectId, Target>)
      requires forall id :: id in initial ==> initial[id].totalVotes == 0
      ensures Valid() && Consistent(State())
      ensures votes == [] && targets == initial
    {
      votes := [];
      targets := initial;
      EmptyLedgerConsistent(initial);
    }

    /** getAllVotes: every stored record, unpaginated. */
    method GetAllVotes() returns (all: seq<Vote>)
      requires Valid()
      ensures all == votes
      ensures forall i :: 0 <= i < |all| ==> IsVoteValue(all[i].vote)
    {
      all := votes;
    }

    /**
     * Cast-or-change on a target of the given kind.  The stored old value
     * is taken off the total and the new one put on, one unit at a time;
     * because stored values lie in {-1, 0, 1} this is the specification's
     * `total + (new - old)`.
     */
    method UpdateVoteCount(kind: Kind, user: ObjectId, post: ObjectId, vote: int) returns (out: Outcome)
      requires Valid()
      modifies this
      ensures Valid()
      ensures Step(State(), out) == Cast(old(State()), kind, user, post, vote)
      ensures old(Consistent(State())) ==> Consistent(State())
      ensures forall id :: id in old(targets) && old(ConsistentAt(State(), id)) ==> ConsistentAt(State(), id)
    {
      ghost var before := State();
      CastPreservesInvariants(before, kind, user, post, vote);
      if !(post in targets && targets[post].KindOf() == kind) {
        return NotFound;
      }
      if !IsVoteValue(vote) {
        return BadRequest;
      }
      var existing := FindVote(votes, user, post);
      var target := targets[post];
      var total := target.totalVotes;
      if existing.None? {
        var newVote := Vote(user, post, vote);
        votes := votes + [newVote];
        total := total + vote;
        targets := targets[post := target.(totalVotes := total)];
        out := Created(total, newVote);
      } else if votes[existing.value].vote == vote {
        out := AlreadyExists;
      } else {
        var i := existing.value;
        var oldVote := votes[i].vote;
        votes := votes[i := votes[i].(vote := vote)];
        if oldVote == 1 {
          total := total - 1;
        } else if oldVote == -1 {
          total := total + 1;
        }
        if vote == 1 {
          total := total + 1;
        } else if vote == -1 {
          total := total - 1;
        }
        targets := targets[post := target.(totalVotes := total)];
        out := Updated(total, votes[i]);
      }
    }

    /** updateBlogVoteCount */
    method UpdateBlogVoteCount(user: ObjectId, blogId: ObjectId, vote: int) returns (out: Outcome)
      requires Valid()
      modifies this
      ensures Valid()
      ensures Step(State(), out) == Cast(old(State()), BlogKind, user, blogId, vote)
      ensures old(Consistent(State())) ==> Consistent(State())
      ensures forall id :: id in old(targets) && old(ConsistentAt(State(), id)) ==> ConsistentAt(State(), id)
    {
      out := UpdateVoteCount(BlogKind, user, blogId, vote);
    }

    /** updateCommentVoteCount */
    method UpdateCommentVoteCount(user: ObjectId, commentId: ObjectId, vote: int) returns (out: Outcome)
      requires Valid()
      modifies this
      ensures Valid()
      ensures Step(State(), out) == Cast(old(State()), CommentKind, user, commentId, vote)
      ensures old(Consistent(State())) ==> Consistent(State())
      ensures forall id :: id in old(targets) && old(ConsistentAt(State(), id)) ==> ConsistentAt(State(), id)
    {
      out := UpdateVoteCount(CommentKind, user, commentId, vote);
    }

    /**
     * Retract on a target of the given kind: the stored value is taken off
     * the total one unit at a time, then the record is deleted and returned.
     */
    method DeleteVoteCount(kind: Kind, user: ObjectId, post: ObjectId) returns (out: Outcome)
      requires Valid()
      modifies this
      ensures Valid()
      ensures Step(State(), out) == Retract(old(State()), kind, user, post)
      ensures old(Consistent(State())) ==> Consistent(State())
      ensures forall id :: id in old(targets) && old(ConsistentAt(State(), id)) ==> ConsistentAt(State(), id)
    {
      ghost var before := State();
      RetractPreservesInvariants(before, kind, user, post);
      if !(post in targets && targets[post].KindOf() == kind) {
        return NotFound;
      }
      var existing := FindVote(votes, user, post);
      if existing.None? {
        return NotExists;
      }
      var i := existing.value;
      var oldVote := votes[i].vote;
      var target := targets[post];
      var total := target.totalVotes;
      if oldVote == 1 {
        total := total - 1;
      } else if oldVote == -1 {
        total := total + 1;
      }
      targets := targets[post := target.(totalVotes := total)];
      var voteToDelete := votes[i];
      votes := votes[..i] + votes[i + 1..];
      out := Deleted(total, voteToDelete);
    }

    /** deleteBlogVoteCount */
    method DeleteBlogVoteCount(user: ObjectId, blogId: ObjectId) returns (out: Outcome)
      requires Valid()
      modifies this
      ensures Valid()
      ensures Step(State(), out) == Retract(old(State()), BlogKind, user, blogId)
      ensures old(Consistent(State())) ==> Consistent(State())
      ensures forall id :: id in old(targets) && old(ConsistentAt(State(), id)) ==> ConsistentAt(State(), id)
    {
      out := DeleteVoteCount(BlogKind, user, blogId);
    }

    /** deleteCommentVoteCount */
    method DeleteCommentVoteCount(user: ObjectId, commentId: ObjectId) returns (out: Outcome)
      requires Valid()
      modifies this
      ensures Valid()
      ensures Step(State(), out) == Retract(old(State()), CommentKind, user, commentId)
      ensures old(Consistent(State())) ==> Consistent(State())
      ensures forall id :: id in old(targets) && old(ConsistentAt(State(), id)) ==> ConsistentAt(State(), id)
    {
      out := DeleteVoteCount(CommentKind, user, commentId);
    }

    /**
     * deleteAllCommentVotesForBlog: drop every vote on a comment of the blog;
     * the blog need not exist, and no total is touched.
     */
    method DeleteAllCommentVotesForBlog(blogId: ObjectId)
      requires Valid()
      modifies this
      ensures Valid()
      ensures State() == CascadeDelete(old(State()), blogId)
      ensures forall v :: v in votes <==> v in old(votes) && !(v.post in targets && targets[v.post].Comment? && targets[v.post].blog == blogId)
      ensures targets == old(targets)
      ensures forall id :: id in targets && old(ConsistentAt(State(), id)) && !(targets[id].Comment? && targets[id].blog == blogId) ==> ConsistentAt(State(), id)
    {
      var commentIds := CommentIdsOf(targets, blogId);
      CascadeDeleteEffect(State(), blogId);
      votes := RemovePosts(votes, commentIds);
    }
  }
}
