# Votes and the paginated feed of a discussion board

This project models the core of a discussion-board backend, the post resolver
(`server/src/resolvers/post.ts`), in Dafny. It covers three things.

- **`vote`** applies an up- or downvote. The database is two tables. The vote
  ledger (`updoot`) holds at most one value, +1 or -1, per (userId, postId).
  The `points` column of `post` holds each post's score. The requested value
  is normalised so that only -1 counts as a downvote. Then the resolver does
  one of three things:
  - on a first vote it inserts the ledger row and adds the value to the
    post's points;
  - on a change of direction it overwrites the row and adds twice the value;
  - on a repeat of the same direction it does nothing.

  On every path where no query throws it answers `true`. `Votes.VoteStore`
  holds both tables as maps and updates them in place. `Votes.Apply` is the
  same step as a function on values. The invariant `Votes.Consistent` says that every vote is a unit and
  every post's points equal the sum of the ledger values recorded for it.
  `Votes.ApplyPreservesConsistent` proves that a vote keeps it.
- **`posts`** returns one page of the feed. It clamps the limit to 50 and keeps
  the rows strictly older than the cursor, if there is one. It orders them
  newest first and fetches `limit + 1` of them. It returns the first `limit`
  rows and sets `hasMore` when the extra row came back. Each row carries the
  caller's own vote (`voteStatus`). `Feed.Posts` models the query as "filter,
  sort descending, take". `Feed.Chain` models a client that follows the
  cursors page by page. It models no source lines: it is the client-side use
  the cursor is designed for. `Feed.ChainComplete` proves that, when no two
  posts share a creation time, this client sees every post exactly once,
  newest first.
- **`textSnippet`** returns the first 100 characters of a post's text.

Files: `wrappers.dfy` (an `Option` type), `votes.dfy` (module `Votes`) and
`feed.dfy` (module `Feed`).

### Where the code differs from what a client might expect

The model follows the code in each case below.

- `vote` never checks that the post exists. For a post id with no `post` row,
  the update of `points` matches no row (`Votes.AddPoints`), and the code asks
  for the ledger row to be written all the same. Whether the database accepts
  that insert depends on a foreign key from `updoot` to `post` that is outside
  this model (see "Left out").
- `vote` does not guard against two concurrent requests. The ledger row is
  read before the transaction starts, so two first votes by the same user on
  the same post can both take the insert branch. The first transaction
  commits, recording the vote and its points. The second insert violates the
  key on (userId, postId), and its transaction rolls back before the points
  update. So the vote is counted once, but the second request fails instead
  of being treated as a repeat. This relies on the key declared in the
  `Updoot` entity, which is outside this model.
- Rows with equal creation times can be lost across pages. The cursor is a
  bare timestamp compared with a strict `<`. So when a page ends between two
  posts created in the same millisecond, the second one is never shown.
  `Feed.TiedTimestampsSkipped` exhibits this: two posts share a timestamp,
  pages hold one post, and only one post is ever returned. Completeness
  (`Feed.ChainComplete`) is therefore proved only for distinct timestamps.
- `voteStatus` is chosen by the JavaScript truthiness of the session user id.
  So a user id of 0 gets `null` even when the ledger holds a vote for it
  (`Feed.VoteStatus`).

## Model

| member | source | states |
|---|---|---|
| `Votes.Normalize` | server/src/resolvers/post.ts:54-55 | the unit vote is +1 or -1, and it is -1 exactly when the requested value is -1 |
| `Votes.Lookup` | server/src/resolvers/post.ts:58 | the caller's row is found exactly when the ledger holds one for (userId, postId), and it carries that row's value |
| `Votes.Classify` | server/src/resolvers/post.ts:58-81 | first vote exactly when there is no ledger row; change of direction exactly when the stored value differs from the unit vote; repeat exactly when it equals it |
| `Votes.AddPoints` | server/src/resolvers/post.ts:72-79 | `points = points + k where id = postId` moves only the matching post, by exactly k; it creates no row and changes no other post |
| `Votes.Apply` | server/src/resolvers/post.ts:54-101 | one vote touches only the caller's own ledger row (created when absent) and the voted post's points; every other row and post stays as it was and no post is created; the three branches are stated by `Votes.FirstVoteEffect`, `Votes.FlipEffect` and `Votes.RepeatIsNoOp` |
| `Votes.StoredVoteIsUnit` | server/src/resolvers/post.ts:54-90 | after any vote, looking up the caller's row finds the unit vote, whatever value was requested |
| `Votes.FirstVoteEffect` | server/src/resolvers/post.ts:81-100 | with no row for (user, post), the row is inserted with the unit vote, the post gains exactly that value, and no other row or post changes |
| `Votes.FlipEffect` | server/src/resolvers/post.ts:60-80 | with a row of the other direction, the row is overwritten and the post moves by exactly twice the unit vote, and nothing else changes; in a consistent store the old row was the opposite unit |
| `Votes.RepeatIsNoOp` | server/src/resolvers/post.ts:60-101 | repeating the stored direction leaves both tables unchanged |
| `Votes.VoteIdempotent` | server/src/resolvers/post.ts:58-101 | voting twice in the same direction has the same effect as voting once |
| `Votes.TallyUpdate` | server/src/resolvers/post.ts:63-70 | writing a ledger value at a key moves that post's vote sum by the new value minus the old one, and leaves every other post's sum alone |
| `Votes.ApplyPreservesConsistent` | server/src/resolvers/post.ts:58-101 | if all votes are units and every post's points equal the sum of its ledger values before a vote, the same holds after it |
| `Votes.UpThenDown` | server/src/resolvers/post.ts:60-100 | from no vote, an upvote then a downvote by the same user move the post by +1 and then by -2, ending one below its start, with the row at -1 |
| `Votes.VoteStore.Vote` | server/src/resolvers/post.ts:49-103 | the in-place update of both tables equals `Apply` of the old tables, the call returns true (the outcome when no query throws), and the consistency invariant is preserved |
| `Feed.RealLimit` | server/src/resolvers/post.ts:112 | the page size is at most 50 and at most the requested limit, and equals one of them |
| `Feed.Filter` | server/src/resolvers/post.ts:117-136 | the cursor condition keeps at most the table's rows; which rows is stated by `Feed.FilterMembers`, and the no-cursor case by `Feed.FilterNoCursor` |
| `Feed.FilterMembers` | server/src/resolvers/post.ts:136 | a row is fetched exactly when it is a table row strictly older than the cursor, or any row when there is no cursor |
| `Feed.FilterNoCursor` | server/src/resolvers/post.ts:117-136 | an absent or empty cursor applies no filter |
| `Feed.SortDesc` | server/src/resolvers/post.ts:137 | ordering keeps the number of rows; that it is a permutation and newest first is stated by `Feed.SortDescPermutes` and `Feed.SortDescOrdered` |
| `Feed.SortDescPermutes` | server/src/resolvers/post.ts:137 | ordering by creation time is a permutation of the rows |
| `Feed.SortDescOrdered` | server/src/resolvers/post.ts:137 | the ordered rows are newest first |
| `Feed.Fetch` | server/src/resolvers/post.ts:121-141 | `limit n` returns min(n, number of matching rows) rows, and they are the first rows of the newest-first order; `Feed.FetchRows` and `Feed.FetchNewest` state what they are |
| `Feed.FetchRows` | server/src/resolvers/post.ts:121-141 | every fetched row is a table row older than the cursor, and the fetched rows are newest first |
| `Feed.FetchNewest` | server/src/resolvers/post.ts:137-138 | the limited query returns the newest matching rows: any matching row left out is no newer than every row returned |
| `Feed.VoteStatus` | server/src/resolvers/post.ts:129-133 | null with no session user (or user id 0); otherwise the caller's own ledger value for the post, or null when there is none |
| `Feed.Annotate` | server/src/resolvers/post.ts:129-133 | every fetched row keeps its place; any `voteStatus` shown is the session user's own ledger value for that row's post, and a non-zero session user's existing vote is always shown |
| `Feed.Posts` | server/src/resolvers/post.ts:106-161 | a page holds at most min(50, limit) rows, and `hasMore` is set exactly when more rows match than that; the full contract is stated by `Feed.PostsBounds` and `Feed.PostsRows` |
| `Feed.PostsBounds` | server/src/resolvers/post.ts:112-159 | a page has at most min(50, limit) rows and is a prefix of the fetched rows; `hasMore` holds exactly when limit+1 rows were fetched, i.e. when more rows match than the page holds; a page is full when `hasMore` is set and holds every remaining row when it is not |
| `Feed.PostsRows` | server/src/resolvers/post.ts:121-158 | every row on a page is a table row older than the cursor, rows are newest first, and each carries the caller's vote on that post |
| `Feed.PageNeverExceedsMax` | server/src/resolvers/post.ts:112 | no page holds more than 50 posts, whatever limit is asked for |
| `Feed.PostsIgnoreOtherVoters` | server/src/resolvers/post.ts:129-133 | ledgers that agree on the caller's own rows give identical pages: other users' votes never show |
| `Feed.VoteShowsInFeed` | server/src/resolvers/post.ts:131 | after a user votes on a post, that user's `voteStatus` for it is the unit vote they cast |
| `Feed.ChainComplete` | server/src/resolvers/post.ts:117-159 | with distinct creation times, following each page's last `createdAt` as the next cursor yields every post older than the start cursor exactly once, newest first, each with the caller's vote |
| `Feed.TiedTimestampsSkipped` | server/src/resolvers/post.ts:136 | with two posts created in the same millisecond and pages of one, the cursor chain returns only one post |
| `Feed.ThreePostsTwoPages` | server/src/resolvers/post.ts:112-159 | three posts at t1 < t2 < t3 and limit 2: the first page is t3, t2 with `hasMore`; the page after cursor t2 is t1 alone without `hasMore` |
| `Feed.TextSnippet` | server/src/resolvers/post.ts:43-45 | the snippet is the prefix of the text of length min(100, length of the text) |
| `Feed.SnippetIdempotent` | server/src/resolvers/post.ts:44 | a snippet of a snippet is the same snippet, and a text of at most 100 characters is its own snippet |

## Left out

- GraphQL decorators and the `isAuth` middleware are not modelled. `vote`
  takes the session user id as a plain integer, because the middleware
  guarantees one. `posts` takes it as an optional integer.
- Transactions and concurrency are not modelled. Each branch's two statements
  are one atomic step. The ledger read happens before the transaction and may
  race with another request; that race is not analysed.
- `Votes.VoteStore.Vote` has no failing step. In the source, a query that
  throws makes `vote` fail, and the model does not capture this. Such a query
  may be a foreign-key violation, a duplicate insert after a race, or a
  storage failure. The model instead returns true and records the row.
  `server/src/entities/Updoot.ts` and `server/src/entities/Post.ts` are not
  part of this model. The resolver's post deletion relies on a cascade from
  `post` to `updoot`, which suggests a foreign key exists that would reject a
  vote on a missing post.
- Cursor parsing is not modelled. `parseInt` and `new Date` may give NaN for a
  malformed cursor. The cursor is an optional integer in milliseconds, and an
  empty string counts as no cursor.
- The limit is a natural number. Negative and fractional limits, which JS
  `slice` and SQL `LIMIT` treat in their own ways, are not covered.
- The inner join with `user_account` and the `creator` object are not
  modelled. Every post is assumed to have its creator. The interpolation of
  the user id into the SQL text is also not modelled.
- The SQL order of posts with equal `createdAt` is unspecified. The model fixes
  one order, a stable insertion sort. Every property except
  `Feed.TiedTimestampsSkipped` holds for any newest-first order, or assumes
  distinct times.
- Fixed-width integers are not modelled. User ids, post ids, points and
  timestamps are unbounded integers, so Postgres integer overflow of `points`
  is not covered.
- `Feed.TextSnippet`: JavaScript `slice` counts UTF-16 code units, and the
  model counts Dafny characters (Unicode scalar values). So texts containing
  characters outside the Basic Multilingual Plane get a longer snippet in the
  model than in the source. For example, from a text of 60 emoji the source
  keeps 50 and the model keeps all 60.
- `post`, `createPost`, `updatePost` and `deletePost` are not modelled. They
  are single ORM reads and writes filtered by `id` and `creatorId`. Neither is
  `console.log`.
