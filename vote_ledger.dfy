/**
 * The vote ledger of controllers/voteController.js, as a specification over
 * values.  A `Store` is the Vote collection together with the votable
 * targets (blog posts and comments) and their denormalised `totalVotes`.
 * Each request handler is one atomic step `Store -> Step`.
 *
 * The step functions state the intended effect directly (a changed vote
 * moves the total by `new - old`, a retracted vote takes its value off the
 * total); the `Controller` class in module VoteController performs the
 * source's piecewise `+= 1` / `-= 1` updates and is proved to agree with them.
 */
module VoteLedger {
  import opened Wrappers
  import opened VoteModel

  /** Which collection a handler looks the target up in. */
  datatype Kind = BlogKind | CommentKind

  /**
   * A votable target.  Both kinds carry `totalVotes`, which starts at 0
   * (models/Blog.js:38, models/Comment.js:12); a comment also records the
   * blog it belongs to, which is what the cascade delete selects on.
   */
  datatype Target = Blog(totalVotes: int) | Comment(blog: ObjectId, totalVotes: int)
  {
    function KindOf(): Kind {
      if Blog? then BlogKind else CommentKind
    }
  }

  /**
   * The persistent state: the Vote collection in insertion order and every
   * existing target by id.  ObjectIds are unique across collections, so a
   * single map holds both blog posts and comments.
   */
  datatype Store = Store(votes: seq<Vote>, targets: map<ObjectId, Target>)

  /** What a handler answers (status code and message body, abstracted). */
  datatype Outcome =
    | Created(totalVotes: int, vote: Vote)   // 201 "Vote Added"
    | AlreadyExists                          // 400 "Vote already exists"
    | Updated(totalVotes: int, vote: Vote)   // 200 "Vote updated"
    | Deleted(totalVotes: int, vote: Vote)   // 200 "Vote deleted"
    | NotExists                              // 400 "Vote does not exist"
    | NotFound                               // 404 "No blog post / comment with id"
    | BadRequest                             // 400 "Invalid vote type"

  datatype Step = Step(store: Store, outcome: Outcome)

  // ---------------------------------------------------------------------
  // Queries
  // ---------------------------------------------------------------------

  /**
   * `Blog.findById(id)` / `Comment.findById(id)` finds a document: the id is
   * present and belongs to the collection searched, so a blog id is never
   * found among comments and a comment id never among blogs.
   */
  predicate Exists(s: Store, kind: Kind, id: ObjectId) {
    id in s.targets && s.targets[id].KindOf() == kind
  }

  predicate IsKey(v: Vote, user: ObjectId, post: ObjectId) {
    v.user == user && v.post == post
  }

  /** `Vote.findOne({ user, post })`: the position of the first matching record. */
  function FindVote(votes: seq<Vote>, user: ObjectId, post: ObjectId): (r: Option<nat>)
    ensures r.Some? ==> r.value < |votes| && IsKey(votes[r.value], user, post)
    ensures r.Some? ==> forall j :: 0 <= j < r.value ==> !IsKey(votes[j], user, post)
    ensures r.None? ==> forall j :: 0 <= j < |votes| ==> !IsKey(votes[j], user, post)
  {
    if votes == [] then None
    else if IsKey(votes[0], user, post) then Some(0)
    else match FindVote(votes[1..], user, post)
      case None => None
      case Some(j) => Some(j + 1)
  }

  /** The ensures of FindVote determine its answer: the first matching position. */
  lemma FindVoteAt(votes: seq<Vote>, user: ObjectId, post: ObjectId, k: nat)
    requires k < |votes| && IsKey(votes[k], user, post)
    requires forall j :: 0 <= j < k ==> !IsKey(votes[j], user, post)
    ensures FindVote(votes, user, post) == Some(k)
  {
  }

  /** What one record adds to the tally of `post`. */
  function Contribution(v: Vote, post: ObjectId): (c: int) {
    if v.post == post then v.vote else 0
  }

  /** The sum of the stored vote values for `post`. */
  function SumFor(votes: seq<Vote>, post: ObjectId): (sum: int) {
    if votes == [] then 0 else Contribution(votes[0], post) + SumFor(votes[1..], post)
  }

  /** The collection after `deleteOne` on the record at position `i`. */
  function RemoveAt(votes: seq<Vote>, i: nat): (r: seq<Vote>)
    requires i < |votes|
    ensures |r| == |votes| - 1
    ensures forall j :: 0 <= j < i ==> r[j] == votes[j]
    ensures forall j :: i <= j < |r| ==> r[j] == votes[j + 1]
  {
    votes[..i] + votes[i + 1..]
  }

  /** `Vote.deleteMany({ post: { $in: ids } })`. */
  function RemovePosts(votes: seq<Vote>, ids: set<ObjectId>): (r: seq<Vote>)
    ensures forall v :: v in r <==> v in votes && v.post !in ids
    ensures |r| <= |votes|
  {
    if votes == [] then []
    else if votes[0].post in ids then RemovePosts(votes[1..], ids)
    else [votes[0]] + RemovePosts(votes[1..], ids)
  }

  /**
   * `Comment.find({ blog: blogId })` mapped to ids: only existing comments are
   * selected, so the blog itself (or any other blog post) never is.
   */
  function CommentIdsOf(targets: map<ObjectId, Target>, blogId: ObjectId): (ids: set<ObjectId>)
    ensures ids <= targets.Keys
    ensures forall id :: id in ids ==> targets[id].KindOf() == CommentKind
    ensures blogId in targets && targets[blogId].Blog? ==> blogId !in ids
  {
    set id | id in targets && targets[id].Comment? && targets[id].blog == blogId
  }

  /** The target map with the total of `id` replaced. */
  function WithTotal(targets: map<ObjectId, Target>, id: ObjectId, total: int): (r: map<ObjectId, Target>)
    requires id in targets
  {
    targets[id := targets[id].(totalVotes := total)]
  }

  // ---------------------------------------------------------------------
  // Invariants
  // ---------------------------------------------------------------------

  /** At most one record per (user, post). */
  ghost predicate AtMostOnePerKey(votes: seq<Vote>) {
    forall i, j :: 0 <= i < j < |votes| ==> !IsKey(votes[j], votes[i].user, votes[i].post)
  }

  /** Every stored value is one the schema admits. */
  ghost predicate AllValid(votes: seq<Vote>) {
    forall i :: 0 <= i < |votes| ==> ValidVote(votes[i])
  }

  ghost predicate WellFormed(votes: seq<Vote>) {
    AtMostOnePerKey(votes) && AllValid(votes)
  }

  /** The denormalised total of `id` equals the sum of its stored votes. */
  ghost predicate ConsistentAt(s: Store, id: ObjectId)
    requires id in s.targets
  {
    s.targets[id].totalVotes == SumFor(s.votes, id)
  }

  ghost predicate Consistent(s: Store) {
    forall id :: id in s.targets ==> ConsistentAt(s, id)
  }

  ghost predicate Inv(s: Store) {
    WellFormed(s.votes) && Consistent(s)
  }

  // ---------------------------------------------------------------------
  // Handlers
  // ---------------------------------------------------------------------

  /**
   * Cast-or-change (updateBlogVoteCount / updateCommentVoteCount): target
   * lookup first, then vote validation, then the record lookup.
   */
  function Cast(s: Store, kind: Kind, user: ObjectId, post: ObjectId, value: int): (r: Step)
    ensures r.outcome.NotFound? <==> !Exists(s, kind, post)
    ensures r.outcome.BadRequest? <==> Exists(s, kind, post) && !IsVoteValue(value)
    ensures r.outcome.Created? || r.outcome.Updated? || r.outcome.AlreadyExists? || r.outcome.NotFound? || r.outcome.BadRequest?
    ensures r.store != s <==> r.outcome.Created? || r.outcome.Updated?
    ensures r.outcome.Created? || r.outcome.Updated? ==>
      r.outcome.vote == Vote(user, post, value) && r.outcome.vote in r.store.votes
      && post in r.store.targets && r.outcome.totalVotes == r.store.targets[post].totalVotes
    ensures r.store.targets.Keys == s.targets.Keys
    ensures forall id :: id in s.targets && id != post ==> r.store.targets[id] == s.targets[id]
  {
    if !Exists(s, kind, post) then Step(s, NotFound)
    else if !IsVoteValue(value) then Step(s, BadRequest)
    else
      var total := s.targets[post].totalVotes;
      match FindVote(s.votes, user, post)
      case None =>
        var v := Vote(user, post, value);
        Step(Store(s.votes + [v], WithTotal(s.targets, post, total + value)), Created(total + value, v))
      case Some(i) =>
        var previous := s.votes[i].vote;
        if previous == value then Step(s, AlreadyExists)
        else
          var v := s.votes[i].(vote := value);
          Step(Store(s.votes[i := v], WithTotal(s.targets, post, total + (value - previous))),
               Updated(total + (value - previous), v))
  }

  /** Retract (deleteBlogVoteCount / deleteCommentVoteCount). */
  function Retract(s: Store, kind: Kind, user: ObjectId, post: ObjectId): (r: Step)
    ensures r.outcome.NotFound? <==> !Exists(s, kind, post)
    ensures r.outcome.Deleted? || r.outcome.NotExists? || r.outcome.NotFound?
    ensures r.store != s <==> r.outcome.Deleted?
    ensures r.outcome.Deleted? ==>
      r.outcome.vote in s.votes && IsKey(r.outcome.vote, user, post)
      && |r.store.votes| == |s.votes| - 1
      && post in r.store.targets && r.outcome.totalVotes == r.store.targets[post].totalVotes
    ensures r.store.targets.Keys == s.targets.Keys
    ensures forall id :: id in s.targets && id != post ==> r.store.targets[id] == s.targets[id]
  {
    if !Exists(s, kind, post) then Step(s, NotFound)
    else match FindVote(s.votes, user, post)
      case None => Step(s, NotExists)
      case Some(i) =>
        var total := s.targets[post].totalVotes - s.votes[i].vote;
        Step(Store(RemoveAt(s.votes, i), WithTotal(s.targets, post, total)), Deleted(total, s.votes[i]))
  }

  /** Cascade delete (deleteAllCommentVotesForBlog): totals are left as they are. */
  function CascadeDelete(s: Store, blogId: ObjectId): (r: Store)
    ensures r.targets == s.targets
    ensures forall v :: v in r.votes <==>
      v in s.votes && !(v.post in s.targets && s.targets[v.post].Comment? && s.targets[v.post].blog == blogId)
    ensures |r.votes| <= |s.votes|
  {
    Store(RemovePosts(s.votes, CommentIdsOf(s.targets, blogId)), s.targets)
  }

  // ---------------------------------------------------------------------
  // Lemmas about the tally
  // ---------------------------------------------------------------------

  lemma {:induction false} SumConcat(a: seq<Vote>, b: seq<Vote>, post: ObjectId)
    ensures SumFor(a + b, post) == SumFor(a, post) + SumFor(b, post)
  {
    if a == [] {
      assert a + b == b;
    } else {
      assert (a + b)[1..] == a[1..] + b;
      SumConcat(a[1..], b, post);
    }
  }

  lemma SumAppend(votes: seq<Vote>, v: Vote, post: ObjectId)
    ensures SumFor(votes + [v], post) == SumFor(votes, post) + Contribution(v, post)
  {
    SumConcat(votes, [v], post);
  }

  lemma SumUpdate(votes: seq<Vote>, i: nat, v: Vote, post: ObjectId)
    requires i < |votes|
    ensures SumFor(votes[i := v], post) == SumFor(votes, post) - Contribution(votes[i], post) + Contribution(v, post)
  {
    assert votes == votes[..i] + ([votes[i]] + votes[i + 1..]);
    assert votes[i := v] == votes[..i] + ([v] + votes[i + 1..]);
    SumConcat(votes[..i], [votes[i]] + votes[i + 1..], post);
    SumConcat(votes[..i], [v] + votes[i + 1..], post);
    SumConcat([votes[i]], votes[i + 1..], post);
    SumConcat([v], votes[i + 1..], post);
  }

  lemma SumRemoveAt(votes: seq<Vote>, i: nat, post: ObjectId)
    requires i < |votes|
    ensures SumFor(RemoveAt(votes, i), post) == SumFor(votes, post) - Contribution(votes[i], post)
  {
    assert votes == votes[..i] + ([votes[i]] + votes[i + 1..]);
    SumConcat(votes[..i], [votes[i]] + votes[i + 1..], post);
    SumConcat([votes[i]], votes[i + 1..], post);
    SumConcat(votes[..i], votes[i + 1..], post);
  }

  /** Deleting the votes of `ids` zeroes their tallies and leaves every other tally alone. */
  lemma {:induction false} SumRemovePosts(votes: seq<Vote>, ids: set<ObjectId>, post: ObjectId)
    ensures SumFor(RemovePosts(votes, ids), post) == if post in ids then 0 else SumFor(votes, post)
  {
    if votes != [] {
      SumRemovePosts(votes[1..], ids, post);
      if votes[0].post !in ids {
        SumConcat([votes[0]], RemovePosts(votes[1..], ids), post);
      }
    }
  }

  lemma {:induction false} RemovePostsWellFormed(votes: seq<Vote>, ids: set<ObjectId>)
    requires WellFormed(votes)
    ensures WellFormed(RemovePosts(votes, ids))
  {
    if votes != [] {
      var rest := votes[1..];
      assert WellFormed(rest) by {
        forall i, j | 0 <= i < j < |rest|
          ensures !IsKey(rest[j], rest[i].user, rest[i].post)
        {
          assert rest[i] == votes[i + 1] && rest[j] == votes[j + 1];
        }
        forall i | 0 <= i < |rest| ensures ValidVote(rest[i]) {
          assert rest[i] == votes[i + 1];
        }
      }
      RemovePostsWellFormed(rest, ids);
      if votes[0].post !in ids {
        var tail := RemovePosts(rest, ids);
        var r := [votes[0]] + tail;
        forall i, j | 0 <= i < j < |r|
          ensures !IsKey(r[j], r[i].user, r[i].post)
        {
          if i == 0 {
            assert r[j] == tail[j - 1];
            assert tail[j - 1] in rest;
            var k :| 0 <= k < |rest| && rest[k] == tail[j - 1];
            assert votes[k + 1] == r[j];
          } else {
            assert r[i] == tail[i - 1] && r[j] == tail[j - 1];
          }
        }
        forall i | 0 <= i < |r| ensures ValidVote(r[i]) {
          if i > 0 {
            assert r[i] == tail[i - 1];
          }
        }
      }
    }
  }

  // ---------------------------------------------------------------------
  // Cast-or-change
  // ---------------------------------------------------------------------

  /** A missing target is reported before the vote is validated, and nothing changes. */
  lemma CastOnMissingTarget(s: Store, kind: Kind, user: ObjectId, post: ObjectId, value: int)
    requires !Exists(s, kind, post)
    ensures Cast(s, kind, user, post, value) == Step(s, NotFound)
  {
  }

  /** A value outside {-1, 0, 1} on an existing target is rejected, and nothing changes. */
  lemma CastInvalidValue(s: Store, kind: Kind, user: ObjectId, post: ObjectId, value: int)
    requires Exists(s, kind, post) && !IsVoteValue(value)
    ensures Cast(s, kind, user, post, value) == Step(s, BadRequest)
  {
  }

  /**
   * A first cast appends exactly one record with the given value, raises the
   * target's total and its tally by exactly that value, and touches no other target.
   */
  lemma CastFirstVote(s: Store, kind: Kind, user: ObjectId, post: ObjectId, value: int)
    requires Exists(s, kind, post) && IsVoteValue(value)
    requires FindVote(s.votes, user, post).None?
    ensures var r := Cast(s, kind, user, post, value);
      && r.outcome == Created(s.targets[post].totalVotes + value, Vote(user, post, value))
      && r.store.votes == s.votes + [Vote(user, post, value)]
      && FindVote(r.store.votes, user, post) == Some(|s.votes|)
      && SumFor(r.store.votes, post) == SumFor(s.votes, post) + value
      && r.store.targets.Keys == s.targets.Keys
      && r.store.targets[post].totalVotes == s.targets[post].totalVotes + value
      && r.store.targets[post].KindOf() == kind
      && (forall id :: id in s.targets && id != post ==> r.store.targets[id] == s.targets[id])
  {
    SumAppend(s.votes, Vote(user, post, value), post);
    FindVoteAt(s.votes + [Vote(user, post, value)], user, post, |s.votes|);
  }

  /** Re-casting the stored value answers "already exists" and changes nothing. */
  lemma CastSameValue(s: Store, kind: Kind, user: ObjectId, post: ObjectId, value: int)
    requires Exists(s, kind, post) && IsVoteValue(value)
    requires FindVote(s.votes, user, post).Some?
    requires s.votes[FindVote(s.votes, user, post).value].vote == value
    ensures Cast(s, kind, user, post, value) == Step(s, AlreadyExists)
  {
  }

  /**
   * Changing a stored vote from `old` to `new` overwrites that record only and
   * moves the target's total and its tally by exactly `new - old`.
   */
  lemma CastChangedValue(s: Store, kind: Kind, user: ObjectId, post: ObjectId, value: int)
    requires Exists(s, kind, post) && IsVoteValue(value)
    requires FindVote(s.votes, user, post).Some?
    requires s.votes[FindVote(s.votes, user, post).value].vote != value
    ensures var i := FindVote(s.votes, user, post).value;
      var previous := s.votes[i].vote;
      var r := Cast(s, kind, user, post, value);
      && r.outcome == Updated(s.targets[post].totalVotes + (value - previous), Vote(user, post, value))
      && r.store.votes == s.votes[i := Vote(user, post, value)]
      && |r.store.votes| == |s.votes|
      && SumFor(r.store.votes, post) == SumFor(s.votes, post) + (value - previous)
      && r.store.targets.Keys == s.targets.Keys
      && r.store.targets[post].totalVotes == s.targets[post].totalVotes + (value - previous)
      && (forall id :: id in s.targets && id != post ==> r.store.targets[id] == s.targets[id])
  {
    var i := FindVote(s.votes, user, post).value;
    SumUpdate(s.votes, i, Vote(user, post, value), post);
  }

  /**
   * The record a cast saves (`newVote.save()` or `existingVote.save()`) is the
   * one the Vote schema builds from the same user, post and value, so the
   * handler's own enum check makes the schema validation succeed.
   */
  lemma CastSavesSchemaValidVote(s: Store, kind: Kind, user: ObjectId, post: ObjectId, value: int)
    ensures var r := Cast(s, kind, user, post, value);
      r.outcome.Created? || r.outcome.Updated? ==>
        Validate(VoteDoc(Some(user), Some(post), Some(value))) == Success(r.outcome.vote)
  {
  }

  /** Cast-or-change keeps one record per key, valid values and every total equal to its tally. */
  lemma CastPreservesInvariants(s: Store, kind: Kind, user: ObjectId, post: ObjectId, value: int)
    requires WellFormed(s.votes)
    ensures WellFormed(Cast(s, kind, user, post, value).store.votes)
    ensures forall id :: id in s.targets && ConsistentAt(s, id) ==> ConsistentAt(Cast(s, kind, user, post, value).store, id)
    ensures Consistent(s) ==> Consistent(Cast(s, kind, user, post, value).store)
  {
    var r := Cast(s, kind, user, post, value);
    if Exists(s, kind, post) && IsVoteValue(value) {
      match FindVote(s.votes, user, post)
      case None =>
        var v := Vote(user, post, value);
        forall id | id in s.targets && ConsistentAt(s, id) ensures ConsistentAt(r.store, id) {
          SumAppend(s.votes, v, id);
        }
      case Some(i) =>
        if s.votes[i].vote != value {
          var v := s.votes[i].(vote := value);
          forall id | id in s.targets && ConsistentAt(s, id) ensures ConsistentAt(r.store, id) {
            SumUpdate(s.votes, i, v, id);
          }
          assert AtMostOnePerKey(r.store.votes) by {
            forall a, b | 0 <= a < b < |r.store.votes|
              ensures !IsKey(r.store.votes[b], r.store.votes[a].user, r.store.votes[a].post)
            {
              assert IsKey(r.store.votes[a], s.votes[a].user, s.votes[a].post);
              assert IsKey(r.store.votes[b], s.votes[b].user, s.votes[b].post);
            }
          }
        }
    }
  }

  /** Casting the same value twice in a row: the second cast is a no-op. */
  lemma CastIdempotent(s: Store, kind: Kind, user: ObjectId, post: ObjectId, value: int)
    ensures var first := Cast(s, kind, user, post, value);
      Cast(first.store, kind, user, post, value).store == first.store
    ensures var first := Cast(s, kind, user, post, value);
      first.outcome.Created? || first.outcome.Updated? || first.outcome.AlreadyExists?
      ==> Cast(first.store, kind, user, post, value).outcome == AlreadyExists
  {
    var first := Cast(s, kind, user, post, value);
    if Exists(s, kind, post) && IsVoteValue(value) {
      match FindVote(s.votes, user, post)
      case None =>
        FindVoteAt(first.store.votes, user, post, |s.votes|);
      case Some(i) =>
        if first.outcome.Updated? {
          FindVoteAt(first.store.votes, user, post, i);
        }
    }
  }

  // ---------------------------------------------------------------------
  // Retract
  // ---------------------------------------------------------------------

  /** Retracting with no stored vote answers "does not exist" and changes nothing. */
  lemma RetractMissingVote(s: Store, kind: Kind, user: ObjectId, post: ObjectId)
    requires Exists(s, kind, post)
    requires forall j :: 0 <= j < |s.votes| ==> !IsKey(s.votes[j], user, post)
    ensures Retract(s, kind, user, post) == Step(s, NotExists)
  {
  }

  /**
   * Retracting a stored vote takes exactly its value off the total and the
   * tally, removes that record (so none is left for the key) and returns it.
   */
  lemma RetractExistingVote(s: Store, kind: Kind, user: ObjectId, post: ObjectId)
    requires WellFormed(s.votes)
    requires Exists(s, kind, post)
    requires FindVote(s.votes, user, post).Some?
    ensures var i := FindVote(s.votes, user, post).value;
      var r := Retract(s, kind, user, post);
      && r.outcome == Deleted(s.targets[post].totalVotes - s.votes[i].vote, s.votes[i])
      && r.store.votes == RemoveAt(s.votes, i)
      && FindVote(r.store.votes, user, post).None?
      && SumFor(r.store.votes, post) == SumFor(s.votes, post) - s.votes[i].vote
      && r.store.targets.Keys == s.targets.Keys
      && r.store.targets[post].totalVotes == s.targets[post].totalVotes - s.votes[i].vote
      && (forall id :: id in s.targets && id != post ==> r.store.targets[id] == s.targets[id])
  {
    var i := FindVote(s.votes, user, post).value;
    var rest := RemoveAt(s.votes, i);
    SumRemoveAt(s.votes, i, post);
    forall j | 0 <= j < |rest| ensures !IsKey(rest[j], user, post) {
      if j >= i {
        assert rest[j] == s.votes[j + 1];
      }
    }
  }

  /** Retract keeps one record per key, valid values and every total equal to its tally. */
  lemma RetractPreservesInvariants(s: Store, kind: Kind, user: ObjectId, post: ObjectId)
    requires WellFormed(s.votes)
    ensures WellFormed(Retract(s, kind, user, post).store.votes)
    ensures forall id :: id in s.targets && ConsistentAt(s, id) ==> ConsistentAt(Retract(s, kind, user, post).store, id)
    ensures Consistent(s) ==> Consistent(Retract(s, kind, user, post).store)
  {
    var r := Retract(s, kind, user, post);
    if Exists(s, kind, post) && FindVote(s.votes, user, post).Some? {
      var i := FindVote(s.votes, user, post).value;
      var rest := RemoveAt(s.votes, i);
      forall id | id in s.targets && ConsistentAt(s, id) ensures ConsistentAt(r.store, id) {
        SumRemoveAt(s.votes, i, id);
      }
      forall a, b | 0 <= a < b < |rest|
        ensures !IsKey(rest[b], rest[a].user, rest[a].post)
      {
        var a' := if a < i then a else a + 1;
        var b' := if b < i then b else b + 1;
        assert rest[a] == s.votes[a'] && rest[b] == s.votes[b'];
      }
      forall a | 0 <= a < |rest| ensures ValidVote(rest[a]) {
        assert rest[a] == s.votes[if a < i then a else a + 1];
      }
    }
  }

  /** Retracting twice: the second retract answers "does not exist" and changes nothing. */
  lemma RetractTwice(s: Store, kind: Kind, user: ObjectId, post: ObjectId)
    requires WellFormed(s.votes)
    ensures var first := Retract(s, kind, user, post);
      Retract(first.store, kind, user, post).store == first.store
    ensures var first := Retract(s, kind, user, post);
      first.outcome.Deleted? ==> Retract(first.store, kind, user, post).outcome == NotExists
  {
  }

  /** A first cast followed by its retraction restores the store exactly. */
  lemma RetractUndoesFirstCast(s: Store, kind: Kind, user: ObjectId, post: ObjectId, value: int)
    requires Cast(s, kind, user, post, value).outcome.Created?
    ensures var cast := Cast(s, kind, user, post, value);
      Retract(cast.store, kind, user, post) == Step(s, Deleted(s.targets[post].totalVotes, Vote(user, post, value)))
  {
    var cast := Cast(s, kind, user, post, value);
    FindVoteAt(cast.store.votes, user, post, |s.votes|);
    assert RemoveAt(cast.store.votes, |s.votes|) == s.votes;
    assert WithTotal(cast.store.targets, post, s.targets[post].totalVotes) == s.targets;
  }

  // ---------------------------------------------------------------------
  // Cascade delete
  // ---------------------------------------------------------------------

  /**
   * The cascade delete removes exactly the votes on the blog's comments: every
   * other vote (those on the blog itself included) stays, no total changes,
   * the record invariants are kept and every target that is not one of those
   * comments and was consistent stays so; the comments' tallies drop to 0.
   */
  lemma CascadeDeleteEffect(s: Store, blogId: ObjectId)
    requires WellFormed(s.votes)
    ensures var r := CascadeDelete(s, blogId);
      var comments := CommentIdsOf(s.targets, blogId);
      && (forall v :: v in r.votes <==> v in s.votes && v.post !in comments)
      && (blogId in s.targets && s.targets[blogId].Blog? ==>
            forall v :: v in s.votes && v.post == blogId ==> v in r.votes)
      && r.targets == s.targets
      && WellFormed(r.votes)
      && (forall id :: id in s.targets && id !in comments && ConsistentAt(s, id) ==> ConsistentAt(r, id))
      && (forall id :: id in comments ==> SumFor(r.votes, id) == 0)
  {
    var r := CascadeDelete(s, blogId);
    var comments := CommentIdsOf(s.targets, blogId);
    RemovePostsWellFormed(s.votes, comments);
    forall id | id in s.targets && id !in comments && ConsistentAt(s, id) ensures ConsistentAt(r, id) {
      SumRemovePosts(s.votes, comments, id);
    }
    forall id | id in comments ensures SumFor(r.votes, id) == 0 {
      SumRemovePosts(s.votes, comments, id);
    }
  }

  // ---------------------------------------------------------------------
  // Initial state and a worked scenario
  // ---------------------------------------------------------------------

  /** With no votes and every total at its default 0, the invariant holds. */
  lemma EmptyLedgerConsistent(targets: map<ObjectId, Target>)
    requires forall id :: id in targets ==> targets[id].totalVotes == 0
    ensures Inv(Store([], targets))
  {
  }

  /**
   * Two users on one blog post: A up (1), B up (2), A changes to down (0),
   * B retracts (-1), and B retracting again finds nothing.
   */
  lemma TwoUserScenario()
    ensures var s0 := Store([], map["T" := Blog(0)]);
      var s1 := Cast(s0, BlogKind, "A", "T", 1);
      var s2 := Cast(s1.store, BlogKind, "B", "T", 1);
      var s3 := Cast(s2.store, BlogKind, "A", "T", -1);
      var s4 := Retract(s3.store, BlogKind, "B", "T");
      var s5 := Retract(s4.store, BlogKind, "B", "T");
      && s1.outcome == Created(1, Vote("A", "T", 1))
      && s2.outcome == Created(2, Vote("B", "T", 1))
      && s3.outcome == Updated(0, Vote("A", "T", -1))
      && s4.outcome == Deleted(-1, Vote("B", "T", 1))
      && s4.store == Store([Vote("A", "T", -1)], map["T" := Blog(-1)])
      && s5 == Step(s4.store, NotExists)
  {
  }
}
