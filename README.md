# Posts, comment threads and follows: a verified model

This project models the core rules of a small social-media application in
Dafny: the server's post handlers (`controllers/posts.js`) and the two client
pages that patch their local state after a server call
(`frontend/src/routes/Post.jsx`, `frontend/src/routes/Profile.jsx`).

- `wrappers.dfy` — `Option`.
- `documents.dfy` — the documents: a comment with its replies (a comment
  forest), post, follow edge, user; `Flatten`, the ids of a forest in
  pre-order, which serves as the yardstick for "every comment, once per node".
- `posts_controller.dfy` — module `PostsController`. The listings (feed,
  profile, single post) are pure functions. The work-list walk that collects
  a post's comment ids is a method with a loop, and so is the per-field
  dirty check of an edit. The store is a class `Store` whose methods toggle a
  like, delete a post (soft, or the hard cascade) and edit a post. The
  database is modelled as sequences and sets of documents and the media host
  as the set of public ids it holds.
- `comment_tree.dfy` — module `CommentTree`. It defines paths into a comment
  forest and the updates at a path: replace a node, splice a node out of the
  list that holds it. It also defines the breadth-first order the post page
  walks and `Search`, the first node in that order with a given id.
- `post_page.dfy` — module `PostPage`. `FindFirst` is the page's queue-based
  search. `Page` is a class holding the shown post and the comment forest;
  its methods are the like, edit and add-comment handlers and the three tree
  patches: delete, edit, reply. `KindOf` picks the media player.
- `profile_page.dfy` — module `ProfilePage`. It holds the following test, the
  follow button's request, the follow and unfollow list updates, and the
  post-list update after creating a post.

The page copies the forest through JSON before patching. The copy shares no
node with what is displayed, and no node is reachable twice. The model
therefore treats forests as values and writes each in-place patch of a node
as an update of the copy at that node's path. The three search loops of
`Post.jsx` visit the same nodes in the same order, and none of them changes
the tree before it matches. The delete loop also records, for each node it
takes off the queue without matching, the list that holds each of its replies. So they share one search method here,
followed by each handler's own patch.

## Model

| member | source | states |
|---|---|---|
| PostsController.Feed | controllers/posts.js:28-36 | the feed holds every non-soft-deleted post (for type `following`, only posts whose owner receives one of the viewer's follow edges), each as often as stored, ordered by `createdAt` newest first |
| PostsController.SortNewestFirst | controllers/posts.js:35 | the sort returns a permutation of its input ordered by creation time, newest first |
| PostsController.FeedFilter | controllers/posts.js:31-34 | the feed query keeps a post, with its multiplicity, exactly when it is not soft-deleted and, for type `following`, its owner is a followed user |
| PostsController.FindUser | controllers/posts.js:12-13 | a profile key is looked up by id when it is an object id and by user name otherwise; no match gives no user |
| PostsController.ProfilePosts | controllers/posts.js:22 | a profile lists exactly the user's posts that are not soft-deleted |
| PostsController.GetProfile | controllers/posts.js:9-23 | an unknown user gives no user and no posts; a known user comes with its non-soft-deleted posts |
| PostsController.FindPost | controllers/posts.js:43 | lookup by id finds the first post with the id, or reports that none has it |
| PostsController.LiveRoots | controllers/posts.js:44-45 | exactly the root comments without `deletedAt` are kept, each as often as stored; with `LiveRootsAppend`, in their stored order |
| PostsController.LiveRootsAppend | controllers/posts.js:44-45 | the live-root filter works piece by piece, so kept roots stay in their stored order |
| PostsController.GetPost | controllers/posts.js:41-55 | an unknown id gets no answer, a soft-deleted post answers 404, otherwise the post is returned with its live root comments |
| PostsController.CollectCommentIds | controllers/posts.js:108-114 | the work-list walk terminates and records every comment of the forest exactly once and nothing else (the ids form a permutation of the forest's ids) |
| PostsController.CollectedAreLiveSubtrees | controllers/posts.js:93-114 | every comment in the subtree of a live root comment is among the ids of the live roots' forest, which the collecting walk gathers exactly |
| PostsController.ApplyTextEdits | controllers/posts.js:132-136 | title and caption end equal to the submitted values; `edited` becomes true exactly when one of them differed, and is never reset; no other field changes |
| PostsController.ToggleLikeTwice | controllers/posts.js:78-85 | toggling a like twice restores the like set, the two reported deltas cancel, and a third toggle reports as the first |
| PostsController.ToggleLikeReports | controllers/posts.js:78-85 | a toggle reports +1 exactly when the like is now present and -1 exactly when it is now gone; other likes are untouched |
| PostsController.WithoutPost | controllers/posts.js:117 | removing a post by id drops every post with that id and keeps every other one |
| PostsController.Store.LikePost | controllers/posts.js:76-89 | an existing like of the pair is deleted with -1 reported, otherwise one is created with +1 reported; nothing else changes |
| PostsController.Store.DeletePost | controllers/posts.js:90-123 | an unknown id changes nothing. With soft deletes only `deletedAt` is set. Otherwise the media is released, every comment of the live roots' subtrees is deleted, every like of the post is deleted, and the post is removed |
| PostsController.Store.Destroy | controllers/posts.js:106-117 | the hard delete releases the post's media, deletes every comment of its live roots' subtrees and every like of the post, and removes the post |
| PostsController.Store.EditPost | controllers/posts.js:124-154 | unknown or soft-deleted posts change nothing (redirect or 404); otherwise the dirty check applies, and a file sets `edited` and replaces `media` and `cloudinaryId`, releasing the old media |
| PostsController.SoftDeletedIsHidden | controllers/posts.js:41-48 | after a soft delete, fetching the post answers 404, and neither the feed nor the profile lists it |
| PostsController.NotListed | controllers/posts.js:22-35 | a soft-deleted post is in no feed and no profile listing |
| CommentTree.BfsVisitsEachNodeOnce | frontend/src/routes/Post.jsx:143-163 | a walk from any queue of nodes visits the ids below them, each as often as nodes carry it |
| CommentTree.BfsOrderCoversForest | frontend/src/routes/Post.jsx:116-134 | breadth-first order from the roots takes one step per node and visits every id of the forest, each as often as nodes carry it |
| CommentTree.FirstMatch | frontend/src/routes/Post.jsx:84-86 | the search stops at the first visited node with the id, and fails only if no visited node has it |
| CommentTree.BfsOrderByDepth | frontend/src/routes/Post.jsx:116-134 | the order is breadth-first: the roots come first, in their order, and the depth of visited nodes never decreases |
| CommentTree.SearchSpec | frontend/src/routes/Post.jsx:117-130 | the search fails exactly when no comment has the id; otherwise it finds a node with the id, and no node earlier in breadth-first order has it |
| CommentTree.UpdateAtPatched | frontend/src/routes/Post.jsx:127 | after patching a node in place, its position holds the patched node |
| CommentTree.UpdateAtElsewhere | frontend/src/routes/Post.jsx:127 | patching one node leaves every node that is neither its ancestor nor its descendant unchanged |
| CommentTree.UpdateAtAncestors | frontend/src/routes/Post.jsx:155 | the ancestors of the patched node keep their own fields and their number of replies |
| CommentTree.UpdateAtFlatten | frontend/src/routes/Post.jsx:155 | the forest's ids change by exactly the subtree taken out and the one put in |
| CommentTree.RemoveAtSiblings | frontend/src/routes/Post.jsx:99-100 | splicing a node out removes it from the list that holds it and keeps its siblings in order |
| CommentTree.RemoveAtAncestors | frontend/src/routes/Post.jsx:99-100 | splicing a node out leaves its ancestors' own fields unchanged |
| CommentTree.UpdateAtFrame | frontend/src/routes/Post.jsx:97 | patching one node leaves every node off its line unchanged and keeps its ancestors' own fields |
| CommentTree.UpdateAtOnlyPatched | frontend/src/routes/Post.jsx:97 | replacing one node changes nothing else: the root list keeps its length, unrelated nodes are unchanged, ancestors keep their own fields and number of replies, and the ids change by exactly the old and new subtree |
| CommentTree.RemoveAtFrame | frontend/src/routes/Post.jsx:99-100 | splicing a nested node out leaves every node outside its parent's subtree unchanged and keeps the own fields of the parent and its ancestors |
| CommentTree.RemoveAtFlatten | frontend/src/routes/Post.jsx:99-100 | the comments that disappear are exactly those of the removed node's subtree |
| PostPage.FindFirst | frontend/src/routes/Post.jsx:83-108 | the queue search returns the first node with the id in breadth-first order, and returns nothing exactly when no comment has the id |
| PostPage.AbsentIdChangesNothing | frontend/src/routes/Post.jsx:78-166 | with no node carrying the id, deleting, editing and replying leave the forest as it was |
| PostPage.OnlyFirstMatchPatched | frontend/src/routes/Post.jsx:117-130 | an edit patches only the first matching node in breadth-first order: every unrelated node is unchanged, every ancestor keeps its own fields and number of replies, no root is added, and the ids change by exactly the old and new subtree of that node |
| PostPage.Overlay | frontend/src/routes/Post.jsx:127 | copying a response onto a comment sets each field the response carries to its value and keeps each field it leaves out |
| PostPage.EditOverlaysResponse | frontend/src/routes/Post.jsx:117-127 | an edit keeps the matched node at its place; each of the node's five fields takes the response's value when the response carries it and keeps its own otherwise |
| PostPage.ReplyAppendsLastChild | frontend/src/routes/Post.jsx:154-155 | a reply becomes the last child of the matched node. The node's other fields and earlier replies, every ancestor's own fields and number of replies, and every unrelated node are unchanged; no root is added, and the forest gains exactly the reply's comments |
| PostPage.DeleteSplicesOrOverwrites | frontend/src/routes/Post.jsx:95-101 | a truthy answer is copied onto the node in place and nothing else changes (unrelated nodes, ancestors' own fields and reply counts, the number of roots; the ids change by exactly the node's old and new subtree). A falsy one splices the node out of its list, keeps the siblings in order, drops exactly its subtree, and otherwise changes only that list |
| PostPage.KindOfExtension | frontend/src/routes/Post.jsx:176 | `.mp4` media is shown as video, `.mp3` as audio, anything else as an image |
| PostPage.Page.HandleLike | frontend/src/routes/Post.jsx:35-36 | the shown like count moves by exactly the server's delta |
| PostPage.Page.HandleUpdate | frontend/src/routes/Post.jsx:57-59 | the shown post is replaced only when the answer carries a post |
| PostPage.Page.HandleAddComment | frontend/src/routes/Post.jsx:73-74 | a new root comment is appended at the end of the root list |
| PostPage.Page.DeleteComment | frontend/src/routes/Post.jsx:78-111 | the request is sent exactly when some comment has the id, and the forest becomes its delete patch |
| PostPage.Page.UpdateComment | frontend/src/routes/Post.jsx:113-137 | the request is sent exactly when some comment has the id, and the forest becomes its edit patch |
| PostPage.Page.AddComment | frontend/src/routes/Post.jsx:140-166 | the request is sent exactly when some comment has the id, and the forest becomes its reply patch |
| ProfilePage.FindFollow | frontend/src/routes/Profile.jsx:41 | the search returns an edge of the logged-in user received by the shown user, and returns nothing exactly when there is none |
| ProfilePage.IsFollowingIff | frontend/src/routes/Profile.jsx:41 | the viewer follows the shown user if and only if some edge in its `following` has that user as receiver |
| ProfilePage.FollowRequestSpec | frontend/src/routes/Profile.jsx:45-46 | when following, the button sends DELETE to `unfollowUser`; otherwise it sends POST to `followUser` |
| ProfilePage.WithoutEdge | frontend/src/routes/Profile.jsx:51-52 | the unfollow filter keeps exactly the entries whose id differs from the answer's edge id |
| ProfilePage.WithoutEdgeAppend | frontend/src/routes/Profile.jsx:51-52 | the filter works piece by piece, so kept entries stay in order |
| ProfilePage.FollowAppendsEdge | frontend/src/routes/Profile.jsx:54-55 | following appends the answer's edge at the end of both lists, which each grow by one |
| ProfilePage.UnfollowRemovesEdge | frontend/src/routes/Profile.jsx:51-52 | unfollowing removes every entry with the edge's id from both lists and keeps all others |
| ProfilePage.FollowUnfollow | frontend/src/routes/Profile.jsx:50-56 | the button's answer changes only the shown user's followers and the viewer's following |
| ProfilePage.FollowThenUnfollowRestores | frontend/src/routes/Profile.jsx:51-55 | following with a fresh edge and then unfollowing restores both lists |
| ProfilePage.AfterSubmit | frontend/src/routes/Profile.jsx:35-38 | the created post is appended at the end only when the answer has one; otherwise the list is unchanged |

## Left out

- Network and HTTP plumbing are not modelled: `fetch`, routing, status codes, redirects and JSON encoding. Server answers are method results, and client answers are method parameters.
- The media host is not modelled beyond the set of public ids it holds. An upload is a parameter, and a failed upload or release is not modelled.
- Database semantics are not modelled. Lookups, `populate` and `deleteMany` become functions over the stored sequences and sets. `ObjectId.isValid` is the parameter `isObjectId`.
- The like count that `populate('likes')` attaches to a post is not modelled on the server. The client treats it as a number, and the model does the same.
- The order of posts with equal `createdAt` in the feed is not modelled: the database leaves it open, and the model's sort picks one order. A profile's post order is the store's order, and its contract speaks only of which posts appear.
- The clock (`Date.now()`) is not modelled; it is the parameter `now`.
- The process-wide soft-delete setting is not modelled; it is the parameter `softDeletes`.
- PostsController.Store.LikePost: likes are a set, so at most one like per user and post is assumed. The source's `deleteOne` would remove only one of several duplicates.
- Concurrency is not modelled: the like toggle's read-then-write race and the missing transaction across the delete cascade.
- Handlers that fail on a missing document are modelled only by their effect on state. This covers deleting or editing an unknown post. The model records that nothing changes and that a redirect follows; nothing about the logged error.
- Fetching an unknown post produces no answer at all in the source, because the handler fails and only logs; the model's `NoResponse` stands for this. A design that signals not-found for this case would differ; the model follows the code.
- EditPost: submitted form fields are modelled as present strings. The page's form always sends both. An absent field, which would overwrite the stored value with nothing, is not modelled.
- PostPage.Page.DeleteComment: the model uses one id and removes the node from the list that really holds it. The source keys root entries of its map of parent lists by `_id` (Post.jsx line 81), but reads and writes nested entries by `id` (lines 99 and 106). The post's comments reach the page through `toObject()` (posts.js line 50), which by default leaves out the `id` field. In that default case every reply list is stored under the key `undefined`, and the lookup returns the reply list of the last node that was taken off the queue without matching and had replies. If no such node was taken off the queue before the match (for example when the first root matches), the lookup gives nothing: the splice throws, `setComments` never runs, and the page keeps a comment the server has deleted. Otherwise `indexOf` finds the node only if that list is its own; if not, it gives -1, and `splice(-1, 1)` removes the last comment of that list. The comment schema is not part of this model, so whether it adds `id` is open.
- PostPage.Page.DeleteComment, PostPage.Page.UpdateComment, PostPage.Page.AddComment: when no comment matches, the source never calls `event.preventDefault()` (Post.jsx lines 88, 120 and 147 sit inside the match branch), so the browser goes on with its own form submission. The model only records that no request is sent by the handler. The component that attaches these handlers is not part of this model.
- PostPage.Page: a falsy answer is modelled as `None` and any other answer as a patch. JavaScript's other falsy values are not distinguished.
- Creating a post on the server (`createPost`, posts.js lines 56-75) is not modelled. It is one store insertion fed by the media upload and involves no rule beyond the upload.
- Page navigation and form plumbing are not modelled: `handleDelete` in Post.jsx, dismissing dialogs, resetting forms, and the initial page loads.
- Rendering is not modelled. The preview component's media test is the same as `KindOf`. The login page only posts a form and navigates.
- PostPage.FindFirst: the breadth-first search records the nodes it visits by path. Node identity is modelled by position in the copied forest, which has no sharing.
