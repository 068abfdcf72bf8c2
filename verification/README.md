# VibeCircles rules, modelled in Dafny

VibeCircles is a social network: users register and log in, befriend and block each other,
send direct messages, post to a feed (with likes and comments), join groups, answer event
invitations, keep photo albums and receive notifications. The server is a set of route
handlers over a record store; a few page controllers in the browser rebuild lists from
what the server sends.

This project models the rules those handlers enforce against the store. It covers validation
order, ownership and role checks, the state machines of friendships and group memberships,
the counters kept beside the rows (`likes_count`, `comments_count`, `member_count`), read state,
upserts, cascades and partial updates. It also models the small list and text helpers of three
pages: the activity feed, the reviews page and the home feed.

Layout:

- `tables.dfy` (`Tables`): a table is a sequence of rows with increasing ids and a counter for
  the next id. It holds the store's operations as generic functions:
  - `Select`, an AND of equality filters;
  - `First`, the `[0]` of a query;
  - `Insert`;
  - `Modify`, an update by filter;
  - `Without`, a delete by id;
  - `Upsert`, update-or-insert;
  - `Window`, the offset/limit range.
- `store.dfy` (`Store`): the record types and the `Db` class, with one table field per table.
- `common.dfy` (`Common`): `Option`, the `Status` tag that stands for an HTTP status, and the
  JavaScript string helpers the code relies on (`trim`, `toLowerCase`, `includes`, number
  formatting).
- `sorting.dfy` (`Sorting`): a stable insertion sort by an integer key.
- One module per route file, each a set of methods on `Db`:
  - `messages.dfy`, `groups.dfy`, `users.dfy`, `posts.dfy`, `events.dfy`;
  - `gallery.dfy` (media routes), `notifications.dfy`, `auth.dfy`;
  - `settings.dfy` (module `UserSettings`).
- One module per page controller:
  - `activity_feed.dfy` (`ActivityFeed`);
  - `reviews.dfy` (`Reviews`, with a `ReviewsPage` class);
  - `index_page.dfy` (`IndexPage`, with a `Page` class).

Each route that writes is a method whose `modifies` names the tables it touches. Its `ensures`
states:

- the status for every branch, in the source's check order;
- that a refused request leaves the tables as they were;
- the new tables, in terms of a pure transition function.

Lemmas then prove, about those functions:

- the invariants (one row per key, counts equal to the number of rows they count, no
  negative counts);
- idempotence;
- round trips (like then unlike, two toggles, unlike then like);
- that nothing outside the target row changes.

Identifiers are naturals; 0 stands for a missing or unparsable id. Timestamps are integers
in milliseconds.

## Model

| member | source | states |
|---|---|---|
| Tables.Select | api/config/database.js:36-40 | the rows kept are exactly the stored rows that pass the AND of the filters, in stored order |
| Tables.First | api/config/database.js:28-60 | `query(...)[0]`: a row that passes the filter, or none exactly when no row passes |
| Tables.Table.Insert | api/config/database.js:68-80 | appends the record under the next id and keeps ids increasing |
| Tables.Modify | api/config/database.js:87-96 | same rows and ids; a row that passes the filter gets the update applied, every other row is unchanged |
| Tables.Without | api/config/database.js:107-115 | exactly the rows whose id differs remain; deleting a missing id changes nothing; one fewer row when it exists |
| Tables.GetIn | api/config/database.js:126-140 | `findById`: a record exactly when the id is in the table, and that record is stored under the id |
| Tables.Window | api/config/database.js:50-52 | `range(offset, offset + limit - 1)`: the stored rows at the positions the range covers, in order, at most `limit` of them |
| Tables.Upsert | api/routes/users.js:433-447 | afterwards exactly one row holds the key; an existing row is updated in place, otherwise the new row is inserted; rows with other keys are untouched |
| Tables.PagingOf | api/routes/posts.js:10-12 | page and limit default to 1 and 10 (also for 0), and offset = (page - 1) * limit |
| Tables.TotalPages | api/routes/posts.js:50 | `Math.ceil(total / limit)`: the least page count whose pages hold `total` rows |
| Tables.IntOr | api/routes/posts.js:10-11 | `parseInt(x) \|\| d`: the given number unless it is absent or 0 |
| Common.Trim | api/routes/messages.js:150 | `trim()`: the result is the input without its leading and trailing spaces, and is empty exactly when the input is all spaces |
| Common.Lower | public/assets/js/single-reviews.js:254-255 | `toLowerCase()` on ASCII letters only: same length, each of 'A'-'Z' lowered, every other character kept (see Left out) |
| Common.Contains | public/assets/js/single-reviews.js:254-255 | `includes`: true exactly when the term occurs at some position |
| Common.NatToString | public/assets/js/index.js:173 | the decimal digits of a count: non-empty, digits only, no leading zero |
| Common.NatToStringInjective | public/assets/js/index.js:173 | two different counts never print the same |
| Common.Max0 | api/routes/posts.js:257-259 | `Math.max(0, x)`: never negative, and x itself unless x is negative |
| Common.NonZero | api/routes/media.js:238 | an id counts as given exactly when it is present and not 0 |
| Common.Over | api/routes/groups.js:195-201 | a supplied field replaces the current value, a supplied `null` clears it, an absent field keeps it |
| Common.Later | api/routes/events.js:182-190 | of two bodies sent in turn, the later one's field wins when it supplies it, otherwise the earlier one's |
| Sorting.InsertDesc | public/assets/js/profile-activityfeed.js:91 | inserting into a list sorted by key, largest first, keeps it sorted and adds exactly that element |
| Sorting.SortDesc | public/assets/js/profile-activityfeed.js:91 | a permutation of the input, sorted by key, largest first |
| Sorting.SortAsc | api/routes/messages.js:93 | a permutation of the input, sorted by key, smallest first |
| Sorting.SortDescStable | public/assets/js/single-reviews.js:239-245 | the sort is stable: the elements with any one key come out in their input order |
| Sorting.SortAscStable | api/routes/messages.js:93 | the ascending sort is stable too |
| Sorting.SortSortedKeeps | public/assets/js/single-reviews.js:239-245 | sorting a list that is already sorted leaves it as it is |
| Messages.Thread | api/routes/messages.js:83-95 | exactly the messages between the two users, oldest first, each as often as stored |
| Messages.ThreadSymmetric | api/routes/messages.js:83-95 | the thread of A with B is the thread of B with A |
| Messages.MarkRead | api/routes/messages.js:196-200 | the update keeps every row in place with its id (which rows change is stated by MarkReadOnlyThose) |
| Messages.MarkReadOnlyThose | api/routes/messages.js:98-102 | every other message is unchanged, and a marked message changes only its read flag |
| Messages.MarkReadClears | api/routes/messages.js:98-102 | afterwards no unread message from the partner to the requester is left |
| Messages.MarkReadIdempotent | api/routes/messages.js:196-200 | a second call changes nothing |
| Messages.MarkReadUnreadTotal | api/routes/messages.js:196-200 | the requester's unread total drops by exactly the partner's unread count |
| Messages.UnreadTotal | api/routes/messages.js:220-224 | the number of unread messages addressed to the requester; zero exactly when none is unread |
| Messages.PartnerOfBetween | api/routes/messages.js:44-52 | the partner expression over the requester's messages names exactly the users they exchanged messages with |
| Messages.Partners | api/routes/messages.js:44-52 | a user is a partner exactly when at least one message exists between them and the requester, in either direction; no partner twice |
| Messages.Latest | api/routes/messages.js:19-34 | `ORDER BY created_at DESC LIMIT 1`: a message of the set with no later one in it, none exactly for the empty set |
| Messages.Summary | api/routes/messages.js:13-43 | the entry of a partner names that partner |
| Messages.SummaryLast | api/routes/messages.js:19-34 | the last message and its time come from the single most recent message between the pair, in either direction |
| Messages.SummaryUnread | api/routes/messages.js:35-41 | the unread count is the number of the partner's unread messages to the requester; none of them was sent by the requester |
| Messages.OwnMessageNotCounted | api/routes/messages.js:35-41 | a new message from the requester leaves every unread count as it was |
| Messages.Conversations | api/routes/messages.js:8-67 | one entry per partner, each the partner's summary, a user listed exactly when they exchanged messages with the requester, ordered by last message time, latest first |
| Messages.SummariesCover | api/routes/messages.js:44-52 | the summaries built from the partner list are summaries of partners, and every partner has one |
| Messages.OpenThread | api/routes/messages.js:70-115 | a missing user id is 400 and writes nothing; otherwise the answer is the thread as it was, and the partner's messages are then marked read |
| Messages.ReadFrom | api/routes/messages.js:184-213 | a missing user id is 400; otherwise 200 and the partner's unread messages to the requester are marked read |
| Messages.MarkAllFrom | api/routes/messages.js:196-200 | the messages table becomes its mark-read image |
| Messages.Send | api/routes/messages.js:118-181 | 400 for a missing receiver or content and for a message to oneself, then 404 for an unknown receiver, each writing nothing; otherwise 201 and exactly one unread message with trimmed content is appended |
| Messages.BlankContentStoredEmpty | api/routes/messages.js:123-150 | content made only of spaces passes the presence check and is stored empty |
| Messages.Delete | api/routes/messages.js:242-279 | 400 for a missing id; a missing message and someone else's both give 404 and write nothing; the sender's own message, and only it, is removed |
| Groups.MembershipOf | api/routes/groups.js:184-188 | `membership[0]`: a membership of that user in that group, none exactly when there is none |
| Groups.CountNeverNegative | api/routes/groups.js:358-360 | under the store invariant a group's `member_count` is never negative |
| Groups.ApplyPatch | api/routes/groups.js:195-201 | the update writes exactly the supplied fields, and a `null` description or cover clears it; the creator and the counts never change; an empty body changes nothing |
| Groups.CountPositive | api/routes/groups.js:355-360 | a group that still has a membership row counts at least one member |
| Groups.CountsAppendMember | api/routes/groups.js:295-304 | a new membership raises its own group's count by one and no other group's |
| Groups.CreateKeeps | api/routes/groups.js:124-141 | creating a group with its owner's membership keeps the invariant; the new group has exactly that one membership |
| Groups.PatchKeeps | api/routes/groups.js:195-201 | editing a group's fields keeps the invariant |
| Groups.DeleteKeeps | api/routes/groups.js:244 | deleting a group row keeps the invariant |
| Groups.JoinKeeps | api/routes/groups.js:295-304 | a join keeps the invariant and adds one row to the group's memberships |
| Groups.RemoveKeeps | api/routes/groups.js:355-360 | removing a membership and storing max(0, count - 1) keeps the invariant, and the group had at least one member |
| Groups.RoleKeeps | api/routes/groups.js:481-483 | rewriting a role keeps the invariant |
| Groups.Create | api/routes/groups.js:113-166 | a missing name is 400 and writes nothing; otherwise the group (privacy 'public' by default, member_count 1, post_count 0) and exactly one membership, the creator's as 'owner', are inserted |
| Groups.Update | api/routes/groups.js:169-216 | 404 for a missing group, 403 unless the requester is owner or admin, each writing nothing; otherwise only the supplied fields change |
| Groups.Delete | api/routes/groups.js:219-258 | 404 for a missing group, 403 unless the requester's membership has the owner role; otherwise only the group row goes |
| Groups.JoinStep | api/routes/groups.js:261-318 | the result keeps the invariant; a refused join writes nothing |
| Groups.JoinChecks | api/routes/groups.js:266-292 | 404 for a missing group, then 403 for a secret group, then 400 for an existing member |
| Groups.JoinAddsMember | api/routes/groups.js:295-304 | a successful join adds exactly one 'member' row and stores count + 1 |
| Groups.Join | api/routes/groups.js:261-318 | the store after a join is the join step's result |
| Groups.CountsOfMember | api/routes/groups.js:302-304 | under the invariant the stored count of a group equals its number of members |
| Groups.RemoveStep | api/routes/groups.js:355-360 | removes exactly that membership and stores count - 1, which is never below 0; other groups are unchanged |
| Groups.RemoveMembership | api/routes/groups.js:547-552 | the store after a removal is the removal step's result |
| Groups.LeaveStep | api/routes/groups.js:321-375 | the result keeps the invariant; a refused leave writes nothing |
| Groups.LeaveChecks | api/routes/groups.js:335-352 | 400 for a non-member, then 400 for the owner: the owner can never leave |
| Groups.LeaveRemovesMember | api/routes/groups.js:355-360 | a leave that passes the checks is the removal of the leaver's own membership |
| Groups.WithMemberCountAt | api/routes/groups.js:358-360 | storing a count changes that group's count and no other group |
| Groups.Leave | api/routes/groups.js:321-375 | the store after a leave is the leave step's result |
| Groups.SetRoleStep | api/routes/groups.js:434-497 | the groups table never changes; a refused change writes nothing; the invariant is kept |
| Groups.SetRoleChecks | api/routes/groups.js:440-478 | 400 for a role outside owner/admin/member before any lookup, then 404 for a missing group, 403 unless owner or admin, 404 for a target who is not a member |
| Groups.SetRoleOnlyTarget | api/routes/groups.js:481-483 | a successful change rewrites the target's role and no other membership |
| Groups.RoleRowsOnlyTarget | api/routes/groups.js:481-483 | the rewrite keeps every row's id, group and user |
| Groups.SetRole | api/routes/groups.js:434-497 | the store after a role change is the role step's result |
| Groups.RemoveMemberStep | api/routes/groups.js:500-566 | the result keeps the invariant; a refused removal writes nothing |
| Groups.RemoveMemberChecks | api/routes/groups.js:506-544 | 404 for a missing group, 403 unless owner or admin, 404 for a non-member target, 400 for an owner target |
| Groups.RemoveMemberKeepsOwners | api/routes/groups.js:527-552 | a successful removal is the removal of the target's membership, and every owner's membership stays |
| Groups.RemoveMember | api/routes/groups.js:500-566 | the store after a member removal is the removal step's result |
| Groups.IsGroupMember | api/routes/groups.js:569-571 | true exactly when some membership in the list has that user |
| Groups.ViewGroup | api/routes/groups.js:66-110 | 404 for a missing group; a group that is not secret is always shown; a secret group is shown only to its members |
| Users.FromToMeans | api/routes/users.js:186-189 | the pair filter selects exactly the rows from that user to that friend |
| Users.SendRequest | api/routes/users.js:165-216 | 400 for a request to oneself before any lookup, 404 for an unknown user, 400 when a row for the ordered pair exists; otherwise one 'pending' row is inserted; refusals write nothing |
| Users.RequestLeavesOnePending | api/routes/users.js:198-202 | after a request the ordered pair has exactly one row, and it is pending |
| Users.Respond | api/routes/users.js:219-271 | 400 for an action other than accept/reject, 404 without a pending row from the friend to the requester; accept marks that row accepted with the time, reject deletes it; no other row changes |
| Users.AcceptLeavesAccepted | api/routes/users.js:243-253 | after accepting, the row is accepted and no pending row from the friend to the requester remains |
| Users.RejectLeavesNone | api/routes/users.js:255-256 | after rejecting, no row from the friend to the requester remains |
| Users.Friends | api/routes/users.js:274-324 | 404 for an unknown user; otherwise at most `limit` rows, each with that user_id and status 'accepted', and all of them when page 1 holds them |
| Users.FriendsPage | api/routes/users.js:290-303 | the page is the window at (page - 1) * limit of the user's accepted rows, in table order |
| Users.EveryFriendOnSomePage | api/routes/users.js:277-303 | with a positive limit, every accepted row of the user is on one of the pages 1 to ceil(count / limit) |
| Users.RemoveBoth | api/routes/users.js:375-400 | only stored rows remain, and the table invariants are kept |
| Users.RemoveBothClears | api/routes/users.js:375-400 | afterwards no row links the two users in either direction, and every row of another pair stays |
| Users.RemoveFriend | api/routes/users.js:370-409 | always 200, even when no row existed; the table becomes the removal of both directions |
| Users.BlockRows | api/routes/users.js:433-447 | exactly one row from the requester to the user exists afterwards, and it is 'blocked'; rows of other pairs are untouched |
| Users.BlockedRowIsBlocked | api/routes/users.js:437-447 | every row of the pair after the upsert is blocked |
| Users.Block | api/routes/users.js:412-461 | 400 for blocking oneself, 404 for an unknown user, each writing nothing; otherwise the table becomes the blocked upsert |
| Users.ViewUser | api/routes/users.js:56-100 | 404 exactly for an unknown user; 403 exactly when the user's profile is private and the viewer is anonymous or someone else; 200 otherwise |
| Users.HiddenFrom | api/routes/users.js:81 | a profile is hidden when it exists, is private, and the viewer is absent or not its owner |
| Posts.CountsNeverNegative | api/routes/posts.js:257-276 | under the store invariant a post's like and comment counts are never negative |
| Posts.CreateKeeps | api/routes/posts.js:114-125 | inserting a post with zero counts keeps the invariant |
| Posts.Create | api/routes/posts.js:103-151 | 400 without content and media URL, writing nothing; otherwise one post with zero likes, comments and shares and privacy 'public' by default |
| Posts.EditPost | api/routes/posts.js:175-177 | only content and privacy change, each only when supplied; a `null` content clears it |
| Posts.PatchKeeps | api/routes/posts.js:179 | editing a post's fields keeps the invariant |
| Posts.Update | api/routes/posts.js:154-194 | 404 for a missing post before 403 for someone else's, each writing nothing; otherwise the author's post is edited |
| Posts.EditOnlyThatPost | api/routes/posts.js:179 | the edit changes that post as the edit says and no other post |
| Posts.Delete | api/routes/posts.js:197-231 | 404 before 403; only the author's post row is deleted |
| Posts.RemoveLike | api/routes/posts.js:252-259 | the unlike branch: delete that like row, store max(0, count - 1), answer `liked: false` |
| Posts.AddLike | api/routes/posts.js:266-276 | the like branch: insert the requester's like, store count + 1, answer `liked: true` |
| Posts.ToggleStep | api/routes/posts.js:234-292 | 404 for a missing post and nothing written; otherwise an existing like is removed and `liked` is false, or one is added and `liked` is true |
| Posts.LikeKeeps | api/routes/posts.js:266-276 | a like keeps the invariant |
| Posts.UnlikeKeeps | api/routes/posts.js:252-259 | an unlike keeps the invariant |
| Posts.ToggleKeeps | api/routes/posts.js:248-276 | a toggle keeps one like per user and post and each stored count equal to the post's likes |
| Posts.WithLikesAt | api/routes/posts.js:257-276 | storing a count changes that post's count and no other post |
| Posts.LikeAdds | api/routes/posts.js:268-272 | a like appends exactly one like row, the requester's |
| Posts.LikeCounts | api/routes/posts.js:266-276 | after a like the post has one like more than its count before |
| Posts.LikeStores | api/routes/posts.js:274-276 | a like stores count + 1 and changes no other post |
| Posts.UnlikeRemoves | api/routes/posts.js:252-256 | an unlike deletes exactly the requester's like row, and no like by them on that post remains |
| Posts.UnlikeCounts | api/routes/posts.js:252-259 | the post had at least one like, and after the unlike it has one fewer |
| Posts.UnlikeStores | api/routes/posts.js:257-259 | an unlike stores max(0, count - 1) and changes no other post |
| Posts.LikedFlagMatches | api/routes/posts.js:262-281 | the `liked` flag equals whether the requester's like exists after the call |
| Posts.LikesRestored | api/routes/posts.js:257-276 | storing a count and then the original count gives back the posts table |
| Posts.LikeThenUnlike | api/routes/posts.js:248-276 | like then unlike: the second toggle removes the like the first added, and the likes are as before |
| Posts.LikeThenUnlikePosts | api/routes/posts.js:248-276 | like then unlike: the posts table is exactly as before |
| Posts.Relike | api/routes/posts.js:248-276 | the second toggle after a like finds the inserted row |
| Posts.UnlikeThenLike | api/routes/posts.js:248-276 | unlike then like: the set of likes is as before |
| Posts.UnlikeThenLikePosts | api/routes/posts.js:248-276 | unlike then like, when the count was at least one: the posts table is as before |
| Posts.Unrelike | api/routes/posts.js:248-276 | the two steps of an unlike followed by a like |
| Posts.RelikePosts | api/routes/posts.js:248-276 | after an unlike and a like the posts table is as before |
| Posts.RelikeLikes | api/routes/posts.js:248-276 | deleting a like and inserting the same like keeps the set of likes |
| Posts.NoLikeLeft | api/routes/posts.js:252-256 | with one like per user and post, none by the requester is left after the delete |
| Posts.LikeSetSwap | api/routes/posts.js:252-272 | deleting a like row and inserting the same like under a new id keeps the set of likes |
| Posts.ToggleTwice | api/routes/posts.js:248-281 | two toggles answer opposite flags and restore the set of likes |
| Posts.ToggleTwicePosts | api/routes/posts.js:248-276 | two toggles restore every post's row, counts included |
| Posts.ToggleLike | api/routes/posts.js:234-292 | the store after a toggle is the toggle step's result |
| Posts.CommentStepOf | api/routes/posts.js:295-353 | 400 without content before the post lookup, 404 for a missing post, each writing nothing; otherwise the comment is added |
| Posts.CommentKeeps | api/routes/posts.js:316-328 | adding a comment and storing count + 1 keeps the invariant |
| Posts.CommentStepKeeps | api/routes/posts.js:295-353 | every outcome of the comment route keeps the invariant |
| Posts.CommentAdds | api/routes/posts.js:316-328 | a comment appends exactly one row, and comments_count goes up by one |
| Posts.AddComment | api/routes/posts.js:295-353 | the store after a comment is the comment step's result |
| Posts.ListPosts | api/routes/posts.js:8-62 | the page holds only stored posts of the asked group, newest first, with the paging figures of the matching total |
| Posts.PaginationFor | api/routes/posts.js:45-51 | page, limit and total are as given, and totalPages is the least count of pages of `limit` that holds the total |
| Posts.ListPostsWindow | api/routes/posts.js:10-33 | a page holds at most `limit` posts, and one page as large as the total holds every matching post |
| Posts.EveryPostOnSomePage | api/routes/posts.js:10-50 | with a positive limit, every matching post is on some page from 1 to totalPages |
| Posts.ListPostsPage | api/routes/posts.js:10-33 | a page is the window at offset (page - 1) * limit of the matching posts sorted newest first |
| Tables.PageOffset | api/routes/posts.js:12 | page q + 1 starts at q * limit |
| Tables.PageOfIndex | api/routes/posts.js:12-50 | an index below the total lies on a page between 1 and totalPages |
| Tables.OnSomePage | api/routes/posts.js:10-12 | with a positive limit, every element of a sequence is in the window of one of the pages 1 to ceil(length / limit) |
| Tables.TopOfDesc | api/routes/media.js:155-167 | the first `limit` elements of a descending sequence are its largest: any element left out has a key no larger than any kept |
| Posts.GetPost | api/routes/posts.js:65-101 | the post with this id, or 404 exactly when there is none |
| Posts.ListComments | api/routes/posts.js:356-395 | 404 for a missing post; otherwise at most `limit` of that post's comments, oldest first, and all of them when page 1 holds them |
| Posts.CommentsPage | api/routes/posts.js:372-382 | the page is the window at (page - 1) * limit of the post's comments, oldest first |
| Posts.EveryCommentOnSomePage | api/routes/posts.js:358-382 | with a positive limit, every comment of the post is on one of the pages 1 to ceil(count / limit) |
| Events.NonZeroInt | api/routes/events.js:128 | `maxAttendees \|\| null`: an absent or zero limit is stored as null |
| Events.Create | api/routes/events.js:108-158 | 400 without title or start date, writing nothing; otherwise one event by the requester, the optional fields null and privacy 'public' when absent |
| Events.ApplyPatch | api/routes/events.js:182-192 | each supplied field is written, a `null` clears a nullable column, every other field is kept; creator and group never change |
| Events.EmptyPatch | api/routes/events.js:182-192 | a body with no fields changes nothing |
| Events.PatchTwice | api/routes/events.js:182-192 | two edits are one edit in which the later body wins; the same edit twice is the edit once |
| Events.Update | api/routes/events.js:161-207 | 404 for a missing event before 403 for someone else's, each writing nothing; otherwise the creator's event is edited |
| Events.PatchOnlyThatEvent | api/routes/events.js:192 | the edit changes that event as the patch says, keeps its creator, and changes no other event |
| Events.Delete | api/routes/events.js:210-244 | 404 before 403; only the creator's event row is deleted |
| Events.DeleteOnlyThatEvent | api/routes/events.js:230 | exactly that event is removed and every other one stays |
| Events.RsvpRows | api/routes/events.js:269-285 | afterwards the (event, user) pair has exactly one RSVP, with the answer given; other RSVPs are untouched; a first answer inserts one row |
| Events.RsvpRowHasStatus | api/routes/events.js:273-278 | every RSVP of the pair after the upsert has the answer given |
| Events.Rsvp | api/routes/events.js:247-300 | 400 for a status outside going/maybe/not_going before the event lookup, 404 for a missing event, each writing nothing; otherwise the upsert |
| Events.LastRsvpWins | api/routes/events.js:269-285 | answering twice leaves the table as answering once with the second answer |
| Events.UpsertAt | api/routes/events.js:273-278 | on a pair that already has an RSVP, the upsert updates that row in place |
| Events.AnswerAgainAfterInsert | api/routes/events.js:269-285 | a second answer after a first one that inserted is the first answer's insert with the second status |
| Events.AnswerAgainAfterUpdate | api/routes/events.js:269-285 | a second answer after a first one that updated is a single update with the second status |
| Events.RsvpIdempotent | api/routes/events.js:269-285 | repeating an RSVP changes nothing |
| Events.ListEvents | api/routes/events.js:8-68 | only stored events of the asked group, by start date, one page; with `upcoming` only events starting at or after now; total is the page's own length |
| Events.EventsPage | api/routes/events.js:8-40 | without `upcoming`, the page is the window at (page - 1) * limit of the matching events in start order |
| Events.EveryEventOnSomePage | api/routes/events.js:8-40 | with a positive limit and no `upcoming`, every matching event is on one of the pages 1 to ceil(count / limit) |
| Events.UpcomingExactly | api/routes/events.js:43-47 | the upcoming filter keeps exactly the page's events that start at or after now, in their order |
| Events.GetEvent | api/routes/events.js:71-105 | the event with this id, or 404 exactly when there is none |
| Events.Attendees | api/routes/events.js:375-417 | 404 exactly for a missing event; otherwise exactly that event's RSVPs, restricted to the given status when there is one |
| Events.AttendeesByStatus | api/routes/events.js:399-403 | with a status, the list is exactly the unfiltered list's RSVPs with that status |
| Gallery.OwnershipQuery | api/routes/media.js:289-299 | the ownership query finds a row exactly when the record exists, has that type and belongs to the requester |
| Gallery.CreateAlbum | api/routes/media.js:186-222 | 400 without a title, writing nothing; otherwise one record of type 'album', no parent album, privacy 'public' by default |
| Gallery.UploadPhoto | api/routes/media.js:225-279 | 400 without a file URL; 404 when a given album is not an album of the uploader; each writes nothing; otherwise one 'photo' record with file type 'image/jpeg', size 0 and no album by default |
| Gallery.EditAlbum | api/routes/media.js:301-308 | `updated_at` is always refreshed; the other fields change only when supplied, and a supplied `null` clears them |
| Gallery.EmptyAlbumEdit | api/routes/media.js:301-308 | an empty body changes `updated_at` and nothing else |
| Gallery.UpdateAlbum | api/routes/media.js:282-324 | a missing album and someone else's both give 404 and write nothing; otherwise only that album changes |
| Gallery.EditPhoto | api/routes/media.js:346-351 | title, description, privacy and album change only when supplied, a supplied `null` clears them; an empty body changes nothing |
| Gallery.UpdatePhoto | api/routes/media.js:327-367 | a missing photo and someone else's both give 404 and write nothing; otherwise only that photo changes |
| Gallery.EditOnlyThatRecord | api/routes/media.js:310 | an edit changes the one record it names, keeps its owner and type, and no other record |
| Gallery.CascadeDelete | api/routes/media.js:388-392 | exactly the album's own records and the album itself are removed |
| Gallery.NoOrphansLeft | api/routes/media.js:388-392 | afterwards no record is filed in the album and the album is gone |
| Gallery.CascadeRemovesAlbumAndPhotos | api/routes/media.js:388-392 | the table shrinks by the number of the album's records plus one |
| Gallery.DeleteAlbum | api/routes/media.js:370-406 | a missing album and someone else's both give 404 and write nothing; otherwise the cascade |
| Gallery.DeletePhoto | api/routes/media.js:409-441 | a missing photo and someone else's both give 404 and write nothing; otherwise only that row goes (media.js:427 admitted) |
| Gallery.ListAlbums | api/routes/media.js:8-63 | the user gate (404, 403 for a private profile unless the owner asks); then exactly the user's top-level albums, newest first |
| Gallery.OwnerSeesAlbums | api/routes/media.js:28-33 | the owner of an existing gallery is never refused |
| Gallery.ListAlbumPhotos | api/routes/media.js:66-124 | 404 unless the id is an album; 403 for a private album unless the owner asks; otherwise exactly its photos, newest first |
| Gallery.AlbumQuery | api/routes/media.js:71-78 | the album query finds the record with this id exactly when it is an album |
| Gallery.ListPhotos | api/routes/media.js:127-183 | the same user gate; then at most `limit` of the user's photos, newest first, and all of them when they fit |
| Gallery.MostRecentPhotos | api/routes/media.js:155-167 | the photos listed are the most recent: every photo of the user left off is no newer than any listed, and the list is min(limit, count) long |
| Gallery.PrivateGalleryHidden | api/routes/media.js:28-33 | a private profile hides the albums and the photos from anyone but the owner: both answer 403 with nothing |
| Notifications.AddressedQuery | api/routes/notifications.js:64-68 | the id-and-recipient query finds a row exactly when the notification exists and is addressed to the requester |
| Notifications.ListFor | api/routes/notifications.js:8-33 | exactly the requester's notifications, newest first |
| Notifications.UnreadCount | api/routes/notifications.js:36-57 | at most the requester's notifications, and zero exactly when all of them are read |
| Notifications.MarkRead | api/routes/notifications.js:60-85 | only the requester's own notification is marked read; for any other id nothing is written and the route fails |
| Notifications.MarkReadOnlyThat | api/routes/notifications.js:64-68 | that notification alone changes, and only its read flag |
| Notifications.AllRead | api/routes/notifications.js:90-95 | same rows and ids; the requester's notifications become read and every other row is unchanged |
| Notifications.MarkAllRead | api/routes/notifications.js:88-110 | 200, and the table becomes the mark-all-read image |
| Notifications.AllReadLeavesNoUnread | api/routes/notifications.js:90-95 | afterwards the requester has nothing unread |
| Notifications.AllReadIdempotent | api/routes/notifications.js:90-95 | marking all read twice is the same as once |
| Notifications.AllReadKeepsOthers | api/routes/notifications.js:90-95 | other users' notifications and unread counts are untouched |
| Notifications.Delete | api/routes/notifications.js:113-136 | 200; the notification is removed only when it is the requester's, otherwise nothing changes |
| Notifications.DeleteMatches | api/routes/notifications.js:117-121 | the delete filter removes exactly that row when it is the requester's, and no row otherwise |
| Notifications.CreateNotification | api/routes/notifications.js:139-160 | on success one unread notification is appended and returned; on failure nothing is written and null is returned |
| Notifications.CreateCountsUnread | api/routes/notifications.js:139-160 | a new notification adds one to its recipient's unread count and to nobody else's |
| Auth.PublicHidesOnlyTheHash | api/routes/auth.js:93 | two users look the same in a response exactly when they differ at most in their password hash |
| Auth.NewUser | api/routes/auth.js:51-58 | role 'user', active, email not verified, never logged in, with the given name, email and hash |
| Auth.NewProfile | api/routes/auth.js:63-69 | the full name defaults to the username, the profile is public, every other field empty |
| Auth.DefaultSettings | api/routes/auth.js:72-83 | both notification kinds on, public visibility, theme 'light', language 'en', timezone 'UTC' |
| Auth.Register | api/routes/auth.js:10-111 | 400 for a missing field, then a short password, before any lookup; then 400 for a taken email before a taken username; each writes nothing; otherwise the user, profile and settings rows are inserted |
| Auth.InsertKeepsInv | api/routes/auth.js:60-83 | the three inserts keep emails and usernames unique and give the new user one profile and one settings row |
| Auth.Authenticate | api/routes/auth.js:119-150 | 400 for a missing field; the same 401 for an unknown email and a wrong password; 401 for a deactivated account before the password is checked; success names the account |
| Auth.AuthenticateAccount | api/routes/auth.js:127-150 | with unique emails the account that owns the email decides: deactivated is 401, a wrong password is 401, otherwise success for that account |
| Auth.Login | api/routes/auth.js:114-189 | a refused attempt writes nothing; a successful one records the login time on that account |
| Auth.LoginTouchesOnlyLastLogin | api/routes/auth.js:153-155 | a login changes that account's last-login time and nothing else |
| Auth.RegisteredCanLogIn | api/routes/auth.js:51-150 | whoever registers can log in at once with the same email and password |
| Auth.ChangePassword | api/routes/auth.js:252-302 | 400 for a missing field, then a short new password; 401 for a wrong current password; each writes nothing; otherwise only the hash changes |
| Auth.NewPasswordLogsIn | api/routes/auth.js:286-289 | after a change on an active account, logging in with the new password succeeds |
| Auth.EditProfile | api/routes/auth.js:225-232 | exactly the supplied fields are written, a supplied `null` clears a nullable column; the owner, avatar and cover never change |
| Auth.EmptyEditKeepsProfile | api/routes/auth.js:225-232 | a body with no fields leaves the profile as it is |
| Auth.EditProfileIdempotent | api/routes/auth.js:225-232 | applying an edit twice is the same as once |
| Auth.EditKeepsOwners | api/routes/auth.js:234 | editing the rows a user owns, keeping their owner, keeps the table valid and the ownership unique |
| Auth.UpdateProfile | api/routes/auth.js:221-249 | 200, and the requester's profile gets exactly the supplied fields |
| Auth.ProfileEditOnlyOwn | api/routes/auth.js:234 | with one profile per user, the update writes at most the requester's profile and no other row |
| UserSettings.ViewOf | api/routes/settings.js:12-31 | the inner join: a row exactly when the requester has settings, an account and a profile, made of those three |
| UserSettings.GetSettings | api/routes/settings.js:8-51 | 404 exactly when the join is empty, otherwise 200 with the joined row |
| UserSettings.GetNotificationSettings | api/routes/settings.js:200-232 | 404 exactly when the requester has no settings row; otherwise its four notification columns |
| UserSettings.GetDisplaySettings | api/routes/settings.js:274-305 | 404 exactly when the requester has no settings row; otherwise theme, language and timezone |
| UserSettings.EditSettings | api/routes/settings.js:77-87 | exactly the supplied columns are written and the owner never changes; an empty edit changes nothing |
| UserSettings.EditSettingsIdempotent | api/routes/settings.js:77-87 | applying an edit twice is the same as once |
| UserSettings.SettingsEditOnlyOwn | api/routes/settings.js:86-88 | with one settings row per user, the update writes at most the requester's row |
| UserSettings.SettingsPart | api/routes/settings.js:77-84 | the settings edit is empty exactly when the body has none of the seven settings fields |
| UserSettings.ProfilePart | api/routes/settings.js:91-99 | `profile_privacy` is written to the profile's privacy; the profile edit is empty exactly when the body has none of the eight profile fields |
| UserSettings.HalvesAreIndependent | api/routes/settings.js:77-103 | each table sees only its own fields of the body |
| UserSettings.UpdateSettings | api/routes/settings.js:54-139 | 200; user_settings is written only when a settings field is supplied, profiles only when a profile field is supplied |
| UserSettings.UpdateAvatar | api/routes/settings.js:142-168 | an absent or empty URL is 400 and writes nothing; otherwise only the requester's avatar changes |
| UserSettings.UpdateCover | api/routes/settings.js:171-197 | an absent or empty URL is 400 and writes nothing; otherwise only the requester's cover changes |
| UserSettings.PictureOnly | api/routes/settings.js:154 | a new avatar or cover changes that one column and keeps the rest of the profile |
| UserSettings.NotificationEdit | api/routes/settings.js:245-249 | no display field is ever supplied; the edit is empty exactly when none of the four fields is |
| UserSettings.DisplayEdit | api/routes/settings.js:313-316 | no notification field is ever supplied; the edit is empty exactly when none of theme, language, timezone is |
| UserSettings.NotificationEditTouchesOnlyItsFields | api/routes/settings.js:245-258 | the notification PUT changes at most its four columns |
| UserSettings.DisplayEditTouchesOnlyItsFields | api/routes/settings.js:313-325 | the display PUT changes at most theme, language and timezone |
| UserSettings.UpdateNotificationSettings | api/routes/settings.js:235-271 | 400 and nothing written when none of the four fields is supplied; otherwise the requester's row gets them |
| UserSettings.UpdateDisplaySettings | api/routes/settings.js:308-338 | 400 and nothing written when none of theme, language, timezone is supplied; otherwise the requester's row gets them |
| ActivityFeed.TypeOf | public/assets/js/profile-activityfeed.js:94-105 | a known type maps to its fixed (type, icon, text); any other type maps to general/bell |
| ActivityFeed.KnownKindsDistinct | public/assets/js/profile-activityfeed.js:95-103 | different known types are shown differently |
| ActivityFeed.TimeAgo | public/assets/js/profile-activityfeed.js:107-122 | getTimeAgo: whole minutes, hours and days by floor division, with the date past a week (bounds in TimeAgoBuckets) |
| ActivityFeed.TimeAgoBuckets | public/assets/js/profile-activityfeed.js:107-122 | under a minute (and any future time) is 'Just now'; then minutes below 60, hours below 24, days below 7, otherwise the date |
| ActivityFeed.ActivityIdsDistinct | public/assets/js/profile-activityfeed.js:64-79 | entry ids tell posts and notifications apart and never collide |
| ActivityFeed.PostActivity | public/assets/js/profile-activityfeed.js:62-74 | a post's entry has id 'post-' + id, the post's content and time |
| ActivityFeed.NoteActivity | public/assets/js/profile-activityfeed.js:76-89 | a notification's entry has id 'notification-' + id and its type's label |
| ActivityFeed.Collected | public/assets/js/profile-activityfeed.js:58-89 | one entry per post, then one per notification; the length is the sum |
| ActivityFeed.FormatActivities | public/assets/js/profile-activityfeed.js:58-92 | the two loops collect every entry, and the result is those entries sorted by time, newest first |
| ActivityFeed.FeedHasEveryItem | public/assets/js/profile-activityfeed.js:58-92 | every post and notification has its entry in the feed, and every entry comes from one of them |
| ActivityFeed.EveryItemIn | public/assets/js/profile-activityfeed.js:58-89 | a list holding every collected entry holds every post's and notification's entry |
| ActivityFeed.OnlyItemsIn | public/assets/js/profile-activityfeed.js:58-89 | a list holding only collected entries holds only entries of posts and notifications |
| ActivityFeed.FilterActivity | public/assets/js/profile-activityfeed.js:275-279 | exactly the entries whose text contains the term, ignoring case (order and multiplicity in FilterAppend) |
| ActivityFeed.FilterOne | public/assets/js/profile-activityfeed.js:277-278 | a single entry is kept exactly when it matches |
| ActivityFeed.FilterAppend | public/assets/js/profile-activityfeed.js:275-279 | filtering distributes over concatenation, so the kept entries stay in feed order, each as often as it occurs |
| ActivityFeed.Matches | public/assets/js/profile-activityfeed.js:277-278 | the lowered text contains the lowered term |
| ActivityFeed.EmptySearchKeepsAll | public/assets/js/profile-activityfeed.js:275-279 | an empty search keeps the whole feed |
| ActivityFeed.FilterIdempotent | public/assets/js/profile-activityfeed.js:275-279 | searching the filtered feed again for the same term changes nothing |
| Reviews.Icon | public/assets/js/single-reviews.js:202 | every star icon has the same length |
| Reviews.Stars | public/assets/js/single-reviews.js:199-205 | the first n stars of a rating; their markup is n icons long |
| Reviews.GenerateStars | public/assets/js/single-reviews.js:199-205 | the loop builds the five-star markup: exactly five icons |
| Reviews.StarsShowRating | public/assets/js/single-reviews.js:201-203 | star i (counting from 1) is filled exactly when i <= rating |
| Reviews.ShownRating | public/assets/js/single-reviews.js:116-120 | `rating \|\| 4.6`: an absent or zero rating shows 4.6 |
| Reviews.SummaryStars | public/assets/js/single-reviews.js:119-124 | summary star k is filled exactly when k < floor(rating) |
| Reviews.PlaceholderFillsFour | public/assets/js/single-reviews.js:119-124 | without a rating, four of five summary stars are filled |
| Reviews.ReviewsPage.constructor | public/assets/js/single-reviews.js:3-10 | a new page has no reviews and the 'most-helpful' tab |
| Reviews.ReviewsPage.SortReviews | public/assets/js/single-reviews.js:239-245 | the reviews are only permuted; 'most-helpful' sorts by helpful count and 'most-recent' by creation time, largest first; any other tab keeps the order |
| Reviews.ReviewsPage.SwitchTab | public/assets/js/single-reviews.js:225-237 | records the tab, then sorts for it |
| Reviews.SortTwiceIsSortOnce | public/assets/js/single-reviews.js:239-245 | choosing the same tab twice gives the order of choosing it once |
| Reviews.Filtered | public/assets/js/single-reviews.js:253-256 | exactly the reviews whose content or author name contains the term, ignoring case (order and multiplicity in FilteredAppend) |
| Reviews.FilteredOne | public/assets/js/single-reviews.js:253-256 | a single review is kept exactly when it matches |
| Reviews.FilteredAppend | public/assets/js/single-reviews.js:253-256 | filtering distributes over concatenation, so the kept reviews stay in order, each as often as it occurs |
| Reviews.ReviewMatches | public/assets/js/single-reviews.js:254-255 | the lowered content or the lowered author name contains the lowered term |
| Reviews.FilterReviews | public/assets/js/single-reviews.js:247-259 | a blank term shows every review; otherwise exactly the matching ones, which Filtered keeps in order |
| IndexPage.TimeAgo | public/assets/js/index.js:348-358 | getTimeAgo: whole seconds, then minutes, hours and days, with the date past 30 days (bounds in TimeAgoBuckets) |
| IndexPage.TimeAgoBuckets | public/assets/js/index.js:348-358 | under 60 s 'just now', under 3600 s minutes, under 86400 s hours, under 2592000 s days, otherwise the date; each count within its bucket's bounds |
| IndexPage.UnreadCount | public/assets/js/index.js:189 | at most the number of notifications, and zero exactly when all are read |
| IndexPage.UnreadCountAppend | public/assets/js/index.js:189 | the unread count of two lists together is the sum of their counts |
| IndexPage.BadgeVisible | public/assets/js/index.js:195 | the badge is displayed when the unread count is above 0 |
| IndexPage.BadgeShowsUnread | public/assets/js/index.js:189-196 | the badge is shown exactly when some notification is unread |
| IndexPage.Shown | public/assets/js/index.js:198 | at most five notifications, the first five in order, and all of them when there are five or fewer |
| IndexPage.MutualFriendsLabel | public/assets/js/index.js:173 | the label starts with the count and ends in 's' exactly when the count is not 1 |
| IndexPage.Remove | public/assets/js/index.js:244 | `filter(r => r.id !== id)`: exactly the items with another id remain, in order |
| IndexPage.RemoveAppend | public/assets/js/index.js:244 | removing from two lists together is removing from each |
| IndexPage.RemoveAbsent | public/assets/js/index.js:244 | removing an id no item has keeps the list |
| IndexPage.RemoveAt | public/assets/js/index.js:244-256 | with unique ids, removing an item's id removes exactly that item and keeps the others in order |
| IndexPage.OthersHaveOtherIds | public/assets/js/index.js:244 | with unique ids, every other item has another id |
| IndexPage.FindPost | public/assets/js/index.js:229 | `find`: the first position with that id, none exactly when no post has it |
| IndexPage.Toggled | public/assets/js/index.js:226-239 | only the found post changes: its like flag is flipped and its count is what the answer gives; no post found, no change |
| IndexPage.ToggleOnlyThatPost | public/assets/js/index.js:229-233 | with unique ids, toggling flips the flag of that post alone |
| IndexPage.ToggleTwiceKeepsFlags | public/assets/js/index.js:229-233 | two toggles restore every like flag |
| IndexPage.CountFromResponse | public/assets/js/index.js:232 | the count read from the like answer is always missing, since the answer carries only `liked` |
| IndexPage.Resynced | public/assets/js/index.js:226-239 | the corrected update: the found post's flag is the server's and its count moves by one with it |
| IndexPage.LikeUnlikeRestores | public/assets/js/index.js:226-239 | with the corrected update, like then unlike restores the list, counts included |
| IndexPage.AsWrittenLosesCount | public/assets/js/index.js:232 | as written, one toggle loses the count of a post that had one |
| IndexPage.Page.constructor | public/assets/js/index.js:3-9 | a new page holds no posts, requests or notifications |
| IndexPage.Page.CreatePost | public/assets/js/index.js:213-224 | on success the new post is put at the front of the feed; nothing else changes |
| IndexPage.Page.ToggleLike | public/assets/js/index.js:226-239 | on success the feed becomes its toggled image; nothing else changes |
| IndexPage.Page.AcceptFriendRequest | public/assets/js/index.js:241-251 | on success the request with that id is removed; nothing else changes |
| IndexPage.Page.DeclineFriendRequest | public/assets/js/index.js:253-263 | on success the request with that id is removed; nothing else changes |
| IndexPage.Page.DeletePost | public/assets/js/index.js:265-277 | when confirmed and successful, the post with that id is removed; nothing else changes |

## Left out

- The HTTP layer is not modelled: routing, the auth middleware, JSON envelopes, response
  bodies beyond the status and the data the properties speak of, and everything in
  `server.js`. Statuses are the `Status` tags.
- The token layer is not modelled. bcrypt and JWT are parameters:
  - the password hash is a function parameter;
  - the verifier is a function `(password, hash) -> bool`;
  - no token is produced.
- `GET /auth/me` and `POST /auth/logout` are not modelled: they only read the requester and
  answer.
- The login answer's profile lookup is not modelled: it is a read with no rule.
- These listings are not modelled: user list and search, a user's posts, pending friend
  requests, group list and group member list. They are joins with no rule beyond
  the filters that the modelled queries already show.
- The birthday route (`/events/birthdays/upcoming`) is not modelled: it depends on calendar
  month and day arithmetic.
- `toLocaleDateString` output is the `date` parameter of the time-ago functions.
- Relative time on the reviews page (`formatDate`) is not modelled. Its buckets are those of
  the activity feed.
- Page rendering (DOM strings, feather icons, toasts) is not modelled. One effect is lost:
  `renderReviews` appends cards without clearing the list, so a tab switch shows the reviews
  twice.
- `null` columns are `Option` values. JavaScript truthiness is modelled only where a check
  relies on it (`!x`, `x || d`).
- `typeMap[notification.type]` also finds inherited object properties, such as
  `constructor`. `ActivityFeed.TypeOf` treats every unknown string as general.
- Requests are sequential. The read-modify-write races on `member_count`, `likes_count` and
  `comments_count` are not modelled.
- Store failures are not modelled except where the code turns them into an outcome:
  - `createNotification` returns null;
  - `.single()` throws (see below).
- Several calls in the code do not match the store wrapper. The model follows what each route
  evidently means to do:
  - `messages.js` and `settings.js` pass SQL text to `db.query`, which reads its first
    argument as a table name.
  - `media.js:389,392,427` pass a filter object to `db.delete`, which matches on `id` only.
    `Gallery.DeleteAlbum` and `Gallery.DeletePhoto` delete by id as the routes mean to.
  - `settings.js` passes a key column that `db.update` ignores.
  - `auth.js:234` passes the user id where `db.update` expects the profile id. The model
    updates the requester's profile.
  - `posts.js:36` uses an undefined `supabase`.
  - `notifications.js` calls `db.supabase`, which the wrapper does not export.
- `findById` and `findByField` use `.single()`, which fails when no row matches. So the 404
  branches after those lookups are in fact 500 answers from the catch. The model gives the
  404 each route spells out; `Notifications.MarkRead` is the exception and answers 500.
- Auth.Register: the email and username lookups (`auth.js:30,38`) go through `findByField`,
  so for a new email `.single()` fails and registration as written answers 500. The model
  registers the user as the route means to, and `Auth.RegisteredCanLogIn` rests on that.
- Auth.Authenticate: an unknown email fails in `findByField` (`auth.js:127`) and answers 500,
  not the 401 the model gives. `Auth.Login` inherits this.
- Auth.Register: the password length is counted in characters; JavaScript's `length`
  (`auth.js:22`) counts UTF-16 code units. A password of three characters outside the Basic
  Multilingual Plane passes in JavaScript and is refused here. The same holds for
  `Auth.ChangePassword` (`auth.js:263`).
- Common.Lower: lowers only 'A' to 'Z'. JavaScript's `toLowerCase` lowers every Unicode
  letter and can change the length ('İ' becomes two characters). So `ActivityFeed.Matches`,
  `ActivityFeed.FilterActivity` and `Reviews.ReviewMatches` find a term like "Ä" in "ä"
  in JavaScript but not here.
- Groups.ApplyPatch: the name and privacy columns are not nullable in the model, so a `null`
  name or privacy (`groups.js:196,198`) cannot be expressed. The schema is not part of the
  repository, so whether the store accepts such a null is unknown.
- Events.ApplyPatch: a `null` title, start date or privacy (`events.js:183,186,188`) cannot
  be expressed, for the same reason.
- Posts.EditPost: a `null` privacy (`posts.js:177`) cannot be expressed, for the same reason.
- Auth.EditProfile: a `null` privacy (`auth.js:232`) cannot be expressed, for the same reason.
  The same holds for `profile_privacy` in `UserSettings.ProfilePart`.
- UserSettings.EditSettings: the seven settings columns are not nullable in the model, so a
  `null` sent for any of them (`settings.js:78-84`) cannot be expressed, for the same reason.
  The same holds for `UserSettings.NotificationEdit` and `UserSettings.DisplayEdit`.
- Messages.Send: a message of spaces passes the presence check and is stored with empty
  content. The model follows the code here, not the rule that content be non-empty once
  trimmed.
- Events.ListEvents: `total` is the length of the filtered page, as the code computes it, not
  the number of matching events.

## Findings

| source | as written | input that shows it | evidently intended | confidence | as-written member | corrected member |
|---|---|---|---|---|---|---|
| public/assets/js/index.js:232 | after a like toggle the card stores `response.data.likes_count`, but the like route answers only `{ liked }` (api/routes/posts.js:262-281) | a post showing 3 likes, liked once: its count becomes undefined and the card shows "undefined likes" | the count follows the toggle: one more on a like, one fewer (never below 0) on an unlike | not executed | IndexPage.AsWrittenLosesCount | IndexPage.LikeUnlikeRestores |
