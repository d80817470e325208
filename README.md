# Blog backend vote ledger and image clean-up, modelled in Dafny

This project models the part of the blog platform backend that holds real
logic: the **vote ledger**. Users cast, change and retract a vote of -1, 0
or +1 on a blog post or a comment. Every target keeps a denormalised
`totalVotes` counter, and the handlers keep it in step with the stored votes.
A second, smaller part is the **Cloudinary public-id extraction** used when
images are deleted.

Files:

- `wrappers.dfy`: module `Wrappers`, with `Option` and `Result`.
- `vote_model.dfy`: module `VoteModel`, the Vote document of `models/Vote.js`.
  - `Vote(user, post, vote)`.
  - The enum {-1, 0, 1} and the default 0.
  - `Validate`, the schema check of a new document. Absent paths are `None`.
- `vote_ledger.dfy`: module `VoteLedger`, the ledger as a specification over values.
  - A `Store` holds the Vote collection as a `seq<Vote>` in insertion order.
  - It also holds the existing targets as a `map<ObjectId, Target>`.
    - `Target` is `Blog(totalVotes)` or `Comment(blog, totalVotes)`.
    - ObjectIds are unique across collections and votes share one `post`
      field for both kinds, so one map holds both kinds.
    - `findById` of a kind succeeds when the id is present with that kind.
  - Each handler is one atomic step. `Cast` and `Retract` return the new
    store and an `Outcome`; `CascadeDelete` returns only the new store,
    because its answer is always the same 200 "All comment votes deleted".
  - `Cast` changes a total by `new - old`. `Retract` subtracts the stored value.
  - The invariants:
    - `AtMostOnePerKey`: at most one record per (user, post).
    - `AllValid`: every stored value is in the enum.
    - `Consistent`: every target's `totalVotes` equals the sum of its stored values.
- `vote_controller.dfy`: module `VoteController`, class `Controller`.
  - It has the fields `votes` and `targets`.
  - There is one method per handler of `controllers/voteController.js`.
  - The methods update the fields in place with the source's piecewise
    `totalVotes += 1` / `-= 1` rule.
  - Each method's `ensures` says that the new state and the answer are the
    `VoteLedger` step. This ties the piecewise rule to `new - old`; it holds
    because stored values lie in {-1, 0, 1}.
  - The blog and comment handlers are copies of each other. Each pair shares
    one method parameterised by `Kind`, with thin per-kind entry points.
- `cloudinary.dfy`: module `Cloudinary`.
  - `IsMatchAt` is a declarative reading of the regular expression
    `/\/v\d+\/(.+)\.\w{3,4}$/` under JavaScript semantics without flags.
  - `MatchAt` and `FirstMatchFrom` compute the match, and `PublicId` is the
    leftmost match's captured group. All three are proved to agree with `IsMatchAt`.
  - `DestroyTarget` is the decision for one URL.
  - `DeleteImagesFromCloudinary` records the ids that
    `cloudinary.uploader.destroy` would be called with, in order.

Behaviour of the source worth noting:

- With no stored vote, retract answers 400 "Vote does not exist"
  (`NotExists`). It is not a successful no-op.
- Re-casting the stored value answers 400 "Vote already exists". The model
  follows the code in both cases.
- The code has no "list votes for a set of targets" operation, so the model
  has none.
- Its cascade delete answers only a message, with no count of deleted votes.

## Model

| member | source | states |
|---|---|---|
| `VoteModel.Validate` | models/Vote.js:5-11 | A document is accepted exactly when `user` and `post` are present and `vote` is absent or in {-1, 0, 1}. An accepted vote keeps the given user, post and value, or 0 when the value is absent, and it is always valid. A rejection names exactly the failing paths. |
| `VoteLedger.FindVote` | controllers/voteController.js:35 | `Vote.findOne({user, post})` gives the position of the first record with that user and post, or `None` exactly when no record has them. |
| `VoteLedger.FindVoteAt` | controllers/voteController.js:35 | The first position holding the key is the answer of `findOne`. |
| `VoteLedger.RemoveAt` | controllers/voteController.js:164 | `deleteOne` leaves the records before and after the deleted one in order, one fewer in all. |
| `VoteLedger.RemovePosts` | controllers/voteController.js:225 | `deleteMany({post: {$in: ids}})` keeps exactly the records whose post is not one of `ids`, and never adds any. |
| `VoteLedger.Exists` | controllers/voteController.js:23 | The definition of `findById` on one collection: the id is present and belongs to that collection. Its effect is stated by the NotFound clauses of `Cast` and `Retract` and by `CastOnMissingTarget`. |
| `VoteLedger.CommentIdsOf` | controllers/voteController.js:221-222 | `Comment.find({blog})` selects only existing comments, so the blog itself and every other blog post are never among the ids whose votes are deleted. |
| `VoteLedger.Cast` | controllers/voteController.js:19-72 | Cast-or-change answers NotFound exactly when the target is missing from its collection, and BadRequest exactly when it exists but the value is not in {1, 0, -1}; otherwise Created, Updated or AlreadyExists. The store changes exactly on Created and Updated, which then report the stored `Vote(user, post, value)` and the target's new total. No target is added or removed, and no other target changes. |
| `VoteLedger.Retract` | controllers/voteController.js:135-172 | Retract answers NotFound exactly when the target is missing, else NotExists or Deleted. The store changes exactly on Deleted, which reports a stored record with that user and post, removes one record, and reports the target's new total. No target is added or removed, and no other target changes. |
| `VoteLedger.CascadeDelete` | controllers/voteController.js:217-228 | No target changes. A vote survives exactly when it was stored and its post is not a comment of the given blog, so votes on other blogs' comments stay. There are never more votes than before. |
| `VoteLedger.CastOnMissingTarget` | controllers/voteController.js:23-33 | The target lookup comes first: a missing target gives NotFound and no change, even when the vote value is also invalid. |
| `VoteLedger.CastInvalidValue` | controllers/voteController.js:28-33 | On an existing target, a value outside {1, 0, -1} gives BadRequest: no record is created and no total changes. |
| `VoteLedger.CastFirstVote` | controllers/voteController.js:37-46 | With no record for (user, post), exactly one record with the given value is appended and `findOne` now finds it. The target's total and its tally rise by exactly that value, and no other target changes. The answer is Created, carrying the new total and the record. |
| `VoteLedger.CastSameValue` | controllers/voteController.js:47-50 | Casting the stored value again gives AlreadyExists and leaves every record and every total unchanged. |
| `VoteLedger.CastChangedValue` | controllers/voteController.js:51-71 | Changing a stored vote from old to new overwrites that record only. The target's total and its tally move by exactly `new - old`, no other target changes, and the answer is Updated with the new total and the record. |
| `VoteLedger.CastPreservesInvariants` | controllers/voteController.js:35-71 | Cast-or-change keeps at most one record per (user, post) and every stored value in the enum. Every target whose total equalled its tally before still does, whatever the other targets look like, so global consistency is kept as well. |
| `VoteLedger.CastIdempotent` | controllers/voteController.js:47-50 | Casting the same value twice: the second cast changes nothing. After a Created, Updated or AlreadyExists, it answers AlreadyExists. |
| `VoteLedger.RetractMissingVote` | controllers/voteController.js:144-149 | With no record for (user, post), retract answers NotExists and changes nothing. |
| `VoteLedger.RetractExistingVote` | controllers/voteController.js:150-171 | Retract takes exactly the stored value off the target's total and its tally. It removes that record, so none is left for the key when keys are unique, and it returns the removed record with the new total. No other target changes. |
| `VoteLedger.RetractPreservesInvariants` | controllers/voteController.js:144-171 | Retract keeps at most one record per (user, post) and every stored value in the enum. Every target whose total equalled its tally before still does, whatever the other targets look like, so global consistency is kept as well. |
| `VoteLedger.RetractTwice` | controllers/voteController.js:144-171 | Retracting twice: the second retract changes nothing, and after a Deleted it answers NotExists. |
| `VoteLedger.RetractUndoesFirstCast` | controllers/voteController.js:150-171 | A first cast followed by a retract of the same vote restores the store exactly. The retract answers Deleted with the original total. |
| `VoteLedger.CascadeDeleteEffect` | controllers/voteController.js:217-228 | On any store with unique keys and valid values, cascade delete removes exactly the votes on the blog's comments. It keeps all other votes, the votes on the blog itself included, and changes no total. Uniqueness and validity are kept, every other target that was consistent stays consistent, and the comments' tallies become 0. |
| `VoteLedger.CastSavesSchemaValidVote` | controllers/voteController.js:37-39 | When a cast saves a record (Created or Updated), it is exactly what the Vote schema's validation builds from the same user, post and value, so the save passes validation. |
| `VoteLedger.EmptyLedgerConsistent` | models/Blog.js:38 | With no votes and every `totalVotes` at its default 0, all invariants hold. |
| `VoteLedger.TwoUserScenario` | controllers/voteController.js:19-172 | Two users on one post: A up gives 1, B up gives 2, A changes to down gives 0, B retracts gives -1, and a second retract by B gives NotExists. The total is not clamped at 0. |
| `VoteController.Controller.constructor` | models/Comment.js:12 | Targets whose totals are all at the default 0 and an empty Vote collection start valid and consistent. |
| `VoteController.Controller.GetAllVotes` | controllers/voteController.js:10-14 | It returns the whole collection, unpaginated, and every returned value is in the enum. |
| `VoteController.Controller.UpdateVoteCount` | controllers/voteController.js:19-72 | The in-place handler with the piecewise ±1 adjustment performs exactly the `Cast` step, so the total moves by `new - old`. It keeps the record invariants and keeps every target that was consistent consistent, so global consistency too. |
| `VoteController.Controller.UpdateBlogVoteCount` | controllers/voteController.js:19-72 | The blog handler is `Cast` on the blog collection. |
| `VoteController.Controller.UpdateCommentVoteCount` | controllers/voteController.js:77-130 | The comment handler is `Cast` on the comment collection. |
| `VoteController.Controller.DeleteVoteCount` | controllers/voteController.js:135-172 | The in-place handler with the piecewise subtraction performs exactly the `Retract` step. It keeps the record invariants and keeps every target that was consistent consistent, so global consistency too. |
| `VoteController.Controller.DeleteBlogVoteCount` | controllers/voteController.js:135-172 | The blog handler is `Retract` on the blog collection. |
| `VoteController.Controller.DeleteCommentVoteCount` | controllers/voteController.js:177-212 | The comment handler is `Retract` on the comment collection. |
| `VoteController.Controller.DeleteAllCommentVotesForBlog` | controllers/voteController.js:217-228 | It performs `CascadeDelete`: a vote survives exactly when its post is not a comment of the blog, the targets are untouched, the record invariants are kept, and every target that was consistent and is not a comment of the blog stays consistent. |
| `Cloudinary.Contains` | helper/helper.js:6 | `includes` is true exactly when the substring occurs at some position. |
| `Cloudinary.DigitRunEnd` | helper/helper.js:4 | `\d+` followed by `/`: the digit run starting at the given point ends at the first non-digit. |
| `Cloudinary.ExtensionDot` | helper/helper.js:4 | `\.\w{3,4}$`: the dot position, if any, such that 3 or 4 word characters follow it up to the end. There is at most one such position. |
| `Cloudinary.IsMatchAt` | helper/helper.js:4 | The declarative reading of `/\/v\d+\/(.+)\.\w{3,4}$/`: a `/v` at p, one or more digits up to a `/` at q, one or more non-line-terminators up to a `.` at e, and 3-4 word characters up to the end of the string. Its properties are stated by `MatchAt` and `PublicIdSpec`. |
| `Cloudinary.MatchAt` | helper/helper.js:4 | The pattern matches from position p exactly when a `/v`, digits, `/`, a non-empty run of non-line-terminators, `.` and 3-4 word characters reach the end. The match from p is unique, and its group is the text between the version slash and the final dot. |
| `Cloudinary.FirstMatchFrom` | helper/helper.js:7 | `match` tries start positions from left to right and returns the first match's group. Its properties are stated by `FirstMatchReaches`, `FirstMatchNone` and `FirstMatchFound`. |
| `Cloudinary.FirstMatchReaches` | helper/helper.js:7 | When nothing matches before p and something matches at p, `match` returns the match at p. |
| `Cloudinary.FirstMatchNone` | helper/helper.js:7 | `match` finds nothing exactly when no start position matches. |
| `Cloudinary.FirstMatchFound` | helper/helper.js:7 | A result of `match` comes from some position with no match before it. |
| `Cloudinary.PublicId` | helper/helper.js:7-8 | `publicIdMatch ? publicIdMatch[1] : null`: the group of the leftmost match from position 0, or none. Its properties are stated by `PublicIdSpec` and `PublicIdOfImageUrl`. |
| `Cloudinary.PublicIdSpec` | helper/helper.js:4-8 | The id is `None` exactly when the pattern matches nowhere. Otherwise it is the group of the leftmost match, and it is never empty and never includes the extension. |
| `Cloudinary.PublicIdOfImageUrl` | helper/helper.js:4-8 | Round trip: for `prefix + "/v" + digits + "/" + id + "." + ext`, the id is recovered exactly. This needs `ext` to be 3-4 word characters, `id` non-empty without line terminators, and no "/v" followed by a digit in the prefix. A "/v" followed by anything else, as in a cloud name starting with `v` or a `/video/upload/` path, does not prevent it. |
| `Cloudinary.NoVersionSegmentNoId` | helper/helper.js:7-9 | A URL without a `/v` segment yields no id. |
| `Cloudinary.DestroyTarget` | helper/helper.js:6-14 | A URL without "cloudinary" never leads to a destroy call. A Cloudinary URL leads to one exactly when an id is extracted, and then with that non-empty id. |
| `Cloudinary.DestroyCalls` | helper/helper.js:9-14 | Each URL gives at most one destroy call. |
| `Cloudinary.DestroyedIds` | helper/helper.js:5-15 | There are no more destroy calls than URLs. |
| `Cloudinary.DestroyedIdsConcat` | helper/helper.js:5-15 | URLs are handled independently: the calls for a concatenated list are the calls for each part, in order. |
| `Cloudinary.DestroyedIdsFromUrls` | helper/helper.js:5-15 | Every destroyed id is the extracted id of some URL in the list that contains "cloudinary". |
| `Cloudinary.DeleteImagesFromCloudinary` | helper/helper.js:3-18 | The loop over the URLs logs exactly the destroy calls `DestroyedIds` describes, in list order. |

## Left out

- The HTTP layer is not modelled: Express routing, the `blogId`/`commentId`
  extraction middleware, and status codes with JSON bodies. The answers are
  the `Outcome` datatype, whose comments give the status and message.
- Authentication is not modelled; the caller's user id is an input.
- `Number(req.query.vote)` coercion is not modelled: the vote is the
  already-coerced number, taken as an integer input. The coercion itself
  accepts more than the digits -1, 0 and 1: an empty or blank `?vote=`
  becomes 0 and is stored as a 0 vote, and `"0x1"`, `"1e0"` or `" 1 "`
  become 1. Non-numeric text becomes `NaN` and fractional text a fraction;
  both are outside {1, 0, -1} and answer BadRequest.
- `totalVotes` is a JavaScript Number. The model uses unbounded integers, so
  precision loss beyond 2^53 is not modelled.
- Persistence ordering, asynchrony and concurrent requests are not modelled.
  - On a cast the vote is saved before the target; on a retract, after it.
  - Each handler is one atomic step, so the window between the two writes
    and races on the same (user, post) are not modelled.
- Timestamps (`createdAt`/`updatedAt`) are not modelled.
- Blog and comment CRUD is not modelled, including the deletion of the
  comments after a cascade. Only the default `totalVotes` of 0 enters, as the
  precondition of the constructor and of `EmptyLedgerConsistent`.
- Cascade delete and consistency: targets are untouched, so while the blog's
  comments still exist their totals no longer match their (now zero)
  tallies. Consistency is therefore stated per target: `CascadeDeleteEffect`
  and the controller keep it for every other target, and `Cast` and
  `Retract` keep it for every target that had it, so the tally invariant of
  untouched targets survives a cascade.
- The Vote schema's `ref: "Blog" || "Comment"` always evaluates to `"Blog"`.
  It matters only to `populate`, which the controller never calls, so the
  model ignores it.
- An explicit `null` vote, as opposed to an absent one, is not modelled: the
  document input has only present or absent paths.
- JavaScript strings are UTF-16 code units, while Dafny characters are
  Unicode scalar values. For ids with characters outside the Basic
  Multilingual Plane, the model counts characters differently; the matched
  text is the same.
- The `cloudinary.uploader.destroy` calls and `Promise.all` are foreign I/O.
  They are modelled only as the log of ids the calls would receive.
