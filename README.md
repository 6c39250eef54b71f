# Pandajeon board: the comment tree and the post list, in Dafny

Pandajeon is a single-page anonymous board: a feed of posts grouped into
named sub-communities, with likes on posts, and comments that carry
replies. The comment type nests replies to any depth; the page's reply box
adds replies to root comments only. This project models the state logic of its page
component (`app/page.tsx`):

- `comment_tree.dfy`, module `CommentTree`: the recursive `Comment` type
  and the two tree walks of the page. `UpdateLikes` is `updateLikes`: it
  flips the like of the comment with a given id and moves its count by one.
  `InsertReply` is `insertReply`: it appends a reply to the comment with a
  given id. Both are `map`s over each level that stop at a matching comment
  and do not look at that comment's own replies. A node is *hit* by a walk
  for id `t` when its id is `t` and no node above it has id `t` (`IsHit`).
  When ids are distinct across the whole forest (`UniqueIds`), the hit node
  is just the node with id `t`. Nodes are named by paths (`ValidPath`, `At`),
  which gives a node-by-node statement of each walk that does not depend on
  how the walk is written.
- `feed.dfy`, module `Feed`: the `Post` type, the seed post, and the pure
  transitions from the old post list to the new one: like a post, like a
  comment, submit a post, add a root comment, add a reply. Also the
  sub-community filter, where `"전체"` selects every post.
- `text.dfy`, module `Text`: ECMAScript's `String.prototype.trim`, applied to
  the sub-community name of a new post. It removes the WhiteSpace and
  LineTerminator characters of ECMA-262.
- `page.dfy`, module `Page`: class `Board` holds the component's state hooks
  as fields. Its methods are the event handlers. Each handler replaces
  `posts` with the matching `Feed` transition and clears the inputs it
  consumed, exactly as the page does. Every handler keeps the invariant
  `Valid()`: each like count, of every post and every comment at any depth,
  is at least 1 when the viewer has liked it and at least 0 otherwise.

The clock value `Date.now()` that the handlers use as a new id is the
parameter `now`. The nickname is the field `currentUser`, which the host
sets. The time label `"방금 전"` is the constant `Feed.JustNow`, as in the
code.

A like toggle changes every node whose id matches and that has no matching
ancestor (`UpdateLikesAt`). With unique ids that is exactly one node
(`UpdateLikesUnique`, `UniquePath`). Both walks keep ids unique, provided the
new comment's id `now` does not already occur (`UpdateLikesKeepsUnique`,
`InsertReplyKeepsUnique`, `Feed.AddCommentKeepsUnique`,
`Feed.AddReplyKeepsUnique`). Nothing in the page checks that `Date.now()` is
new, so this condition is a hypothesis of those lemmas.

`insertReply` searches the tree at every depth (app/page.tsx:132). However,
the page only calls `addReply` with the id of a root comment
(app/page.tsx:266-268), so the page itself builds replies one level deep.
The model accepts a parent at any depth.

## Model

| member | source | states |
|---|---|---|
| `CommentTree.UpdateLikes` | app/page.tsx:94-101 | the walk keeps the number of root comments, their order and their ids |
| `CommentTree.UpdateLikesTwice` | app/page.tsx:94-101 | toggling the same id twice gives back a value-equal forest, for every forest and id, unique or not |
| `CommentTree.UpdateLikesAbsent` | app/page.tsx:95-100 | an id that occurs at no depth leaves the forest value-equal |
| `CommentTree.UpdateLikesAt` | app/page.tsx:95-100 | the same paths exist before and after; at each path the id, author, content, time and number of replies are unchanged; the hit node's flag is negated and its count is +1 if it was unliked, -1 if it was liked; every other node keeps its like state |
| `CommentTree.UpdateLikesUnique` | app/page.tsx:96-99 | with unique ids, the like state changes at the node whose id is the target and at no other node |
| `CommentTree.UpdateLikesCount` | app/page.tsx:94-101 | the walk keeps the total number of comments |
| `CommentTree.UpdateLikesConsistent` | app/page.tsx:97 | the walk keeps every like count consistent with its flag |
| `CommentTree.UniqueIdsCount` | app/page.tsx:7-15 | a forest never has more distinct ids than nodes, and `UniqueIds` holds exactly when the two numbers are equal |
| `CommentTree.UniquePath` | app/page.tsx:96 | with unique ids, two paths to nodes with the same id are equal, so at most one node is the target |
| `CommentTree.HitsUnique` | app/page.tsx:129 | with unique ids, a walk stops at exactly one node when the id is present and at none when it is absent |
| `CommentTree.InsertReply` | app/page.tsx:127-134 | the walk keeps the number of root comments, their order and their ids |
| `CommentTree.InsertReplyAt` | app/page.tsx:128-133 | every old path still exists; at each, the id, author, content, time and like state are unchanged; the hit node's replies become its old replies followed by the new one; every other node keeps its number of replies |
| `CommentTree.InsertReplyCount` | app/page.tsx:127-134 | the forest grows by the size of the reply once for each node the walk stops at, and by no other node |
| `CommentTree.InsertReplyUnique` | app/page.tsx:129-132 | for a parent present in a forest with unique ids, the parent is unchanged except that the new reply is appended as its last reply; every other old node keeps its id, author, content, time, like state and number of replies; the forest holds exactly the reply's nodes more |
| `CommentTree.InsertReplyAbsent` | app/page.tsx:127-134 | a parent id that occurs at no depth leaves the forest value-equal |
| `CommentTree.InsertReplyConsistent` | app/page.tsx:125-134 | inserting a consistent reply keeps every like count consistent with its flag |
| `CommentTree.UpdateLikesIds` | app/page.tsx:96-99 | `updateLikes` changes no id: the set of ids in the forest is the same afterwards |
| `CommentTree.UpdateLikesKeepsUnique` | app/page.tsx:94-101 | `updateLikes` keeps the ids of a forest unique |
| `CommentTree.InsertReplyIds` | app/page.tsx:127-134 | the ids after `insertReply` are the old ids plus the reply's, and the reply's are added exactly when the parent id occurs |
| `CommentTree.InsertReplyKeepsUnique` | app/page.tsx:127-134 | `insertReply` keeps the ids of a forest unique when the reply's ids are unique and new to the forest |
| `CommentTree.UniqueAppend` | app/page.tsx:118 | appending a root comment whose ids are unique and new keeps the forest's ids unique |
| `CommentTree.PathTo` | app/page.tsx:96 | every id in the forest is the id of the node at some path |
| `Feed.TogglePostLike` | app/page.tsx:88-90 | each post with the given id negates its flag and moves its count by one in that direction, and nothing else of it changes; every other post is unchanged; the list keeps its length |
| `Feed.TogglePostLikeTwice` | app/page.tsx:89 | liking the same post twice gives back the list |
| `Feed.TogglePostLikeConsistent` | app/page.tsx:89 | liking a post keeps every like count consistent |
| `Feed.ToggleCommentLike` | app/page.tsx:103 | only the posts with the given id change, and only in their comments, which go through `updateLikes` |
| `Feed.ToggleCommentLikeTwice` | app/page.tsx:93-104 | liking the same comment of the same post twice gives back the list |
| `Feed.ToggleCommentLikeAbsent` | app/page.tsx:93-104 | a comment id found in none of the forests of the posts with the given id leaves the list unchanged |
| `Feed.ToggleCommentLikeKeepsUnique` | app/page.tsx:103 | liking a comment keeps every post's comment ids unique |
| `Feed.SubmitPostSpec` | app/page.tsx:106-111 | refused exactly when the title or the content is empty; otherwise the new post comes first, followed by the old list, with id `now`, the trimmed sub-community name, the given title, content, image and author, no likes, not liked, no comments |
| `Feed.SubmitPostVisible` | app/page.tsx:109-111 | the new post is first in the feed of all posts and in the feed of its trimmed sub-community |
| `Feed.AddComment` | app/page.tsx:115-120 | an empty input changes nothing; otherwise each post with the given id gets one more root comment, after all the old ones, with id `now`, the input as content, no likes, not liked and no replies; no other post and no other field changes |
| `Feed.AddCommentCount` | app/page.tsx:118 | a new root comment adds exactly one comment to the post's tree |
| `Feed.AddReply` | app/page.tsx:123-136 | an empty input changes nothing; otherwise only the comments of the posts with the given id change, through `insertReply` with a new leaf reply |
| `Feed.AddReplyUnique` | app/page.tsx:125-136 | in a post with unique comment ids that holds the parent, the parent gains the new reply (id `now`, the input, no likes, no replies) as its last reply, its other fields are unchanged, and the tree holds one comment more |
| `Feed.AddReplyAbsent` | app/page.tsx:127-136 | a parent id found in none of the forests of the posts with the given id leaves the list unchanged |
| `Feed.AddReplyKeepsUnique` | app/page.tsx:125-136 | adding a reply keeps every post's comment ids unique when its id `now` is new to the posts it may be added to |
| `Feed.AddCommentKeepsUnique` | app/page.tsx:117-118 | adding a root comment keeps every post's comment ids unique when its id `now` is new to the posts it may be added to |
| `Feed.AddCommentConsistent` | app/page.tsx:117-118 | adding a root comment keeps every like count consistent |
| `Feed.ToggleCommentLikeConsistent` | app/page.tsx:103 | liking a comment keeps every like count consistent |
| `Feed.AddReplyConsistent` | app/page.tsx:136 | adding a reply keeps every like count consistent |
| `Feed.Filter` | app/page.tsx:141 | for `"전체"` the feed is the whole list; for any other name a post is in the feed if and only if it is in the list and has that sub-community |
| `Feed.OnSub` | app/page.tsx:141 | the filtered feed is no longer than the list, and every post in it is from the list and has the selected sub-community |
| `Feed.OnSubMembers` | app/page.tsx:141 | a post is in the filtered feed if and only if it is in the list and has the selected sub-community |
| `Feed.OnSubAppend` | app/page.tsx:141 | filtering distributes over concatenation, so the filtered feed keeps the original order |
| `Feed.OnSubExtremes` | app/page.tsx:141 | the filtered feed is the whole list when every post matches, and empty when none does |
| `Text.TrimStartSpec` | app/page.tsx:109 | leading trim removes only a white-space prefix, and the rest starts with a non-space |
| `Text.TrimEndSpec` | app/page.tsx:109 | trailing trim removes only a white-space suffix, and the rest ends with a non-space |
| `Text.TrimSpec` | app/page.tsx:109 | the trimmed name neither starts nor ends with white space, and it is empty exactly when the input is blank |
| `Text.TrimSlice` | app/page.tsx:109 | the trimmed name is a contiguous part of the input, with only white space around it |
| `Text.TrimIdempotent` | app/page.tsx:109 | trimming twice is the same as trimming once |
| `Page.Board.constructor` | app/page.tsx:42-63 | the initial state: the seed post, `"전체"` selected, `"자유"` as the sub-community input, every other input empty; the invariant holds |
| `Page.Board.ToggleLike` | app/page.tsx:88-90 | the posts become `Feed.TogglePostLike` of the old posts; no other state changes; the invariant is kept |
| `Page.Board.ToggleCommentLike` | app/page.tsx:93-104 | the posts become `Feed.ToggleCommentLike` of the old posts; no other state changes; the invariant is kept |
| `Page.Board.HandlePostSubmit` | app/page.tsx:106-113 | accepted exactly when the title and content inputs are non-empty; if refused, nothing changes; if accepted, the new post is prepended and the title, content and image inputs are cleared |
| `Page.Board.AddComment` | app/page.tsx:115-120 | nothing changes for an empty comment input; otherwise the posts become `Feed.AddComment` of the old ones and only the comment input is cleared |
| `Page.Board.AddReply` | app/page.tsx:123-139 | nothing changes for an empty reply input; otherwise the posts become `Feed.AddReply` of the old ones, the reply input is cleared and the reply box is closed |

## Left out

- Random nickname generation and its `localStorage` persistence (app/page.tsx:30-39, 65-76): randomness and browser storage. `currentUser` is a field the host sets.
- Image upload through `FileReader` (app/page.tsx:78-85): asynchronous browser I/O. `selectedImage` is a field the host sets.
- `Date.now()`: a clock. The new id is the parameter `now`. Nothing makes ids unique across calls, so the unique-id results carry `UniqueIds` as a hypothesis.
- The `alert` on a refused post: a UI side effect. `HandlePostSubmit` returns `false` instead.
- All rendering (app/page.tsx:143-301): the sidebar, the expanded post, the full-size image viewer (`fullImage`, `expandedPostId`), and the visual single tier of replies. Also the `onChange` setters of the inputs and the clicks that pick a sub-community. The model's inputs are fields that a caller assigns.
- React's batching of state updates: each handler reads the `posts` of the last render. The model applies handlers one after another, each on the state the previous one left.
- JavaScript numbers are floating point. Like counts and ids are unbounded integers here, because counts stay far from 2^53.
- app/layout.tsx: page metadata and the root HTML wrapper, with no logic.
