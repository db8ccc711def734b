# Blog platform: content authorization and comment threading, in Dafny

This project models the core of a blogging platform. Authenticated users create, edit, publish, like and comment on posts, and administrators moderate them. The model covers three parts:

- **The blog controller** (`common.dfy`, `blog_model.dfy`, `blog_controller.dfy`). The store holds the Blog collection as a map from blog id to document. It also holds each user's `blogs` back-reference list from the User collection. `BlogStore` is a class whose methods are the handlers that load a document, change it and save it: createBlog, updateBlog, deleteBlog, toggleLike and addComment. Each method returns an `Outcome`: `Ok`, or a refusal (`BadRequest` 400, `Forbidden` 403, `NotFound` 404). Its postconditions give the whole new state. The reading handlers are functions over the blog map: getBlogById, getAllBlogs, getAllBlogsForAdmin and getMyBlogs. The store keeps three invariants: every id is below the id counter, every like list has no duplicates, and every user's back-reference list holds exactly the ids of that user's blogs, each once (`BackRefsInSync`).
- **The comment section** (`comment_section.dfy`). `BuildCommentTree` keeps the source's two passes and its lookup map. It is proved against pure functions of the comment list: `ChildIds(cs, None)` gives the roots, `ChildIds(cs, Some(p))` gives the replies of `p`, and `NodeOf` gives the node stored under an id. Parent links may form cycles, so the tree is returned flat: a node map, a list of root ids, and a map from each id to its ordered child ids. The blank-text guards of `handleSubmit` and `handleReply` are modelled with JavaScript's exact `trim` character set.
- **The blog card** (`blog_card.dfy`). The card's display rules are pure functions: author or admin, liked or not, status colour, the 150-character preview, the like count, and which controls are shown. Lemmas relate them to the server's gates.

Identifiers are opaque natural numbers. A request field that may be missing is an `Option`, where `None` stands for `undefined` or `null`. The JavaScript test `!field` is `Blank`: the field is missing or empty. The `??` operator is `GetOr`: only a missing value falls back.

Three behaviours of the code are worth stating outright, because the model follows them and a reader might expect otherwise:

- **Dangling parent.** A comment whose parent id is not in the list is dropped, not promoted to a root: `map[comment.parent]?.replies.push` does nothing when the parent is missing, and the comment never reaches `roots` (`OrphanDropped`, `DanglingParentExample`).
- **Parent id on comments.** addComment stores only `{user, text}`; a request's `parentId` is discarded. So every stored comment has no parent, and a fetched comment list renders flat: all comments are roots and every replies list is empty (`AddComment`, `NoParentsAllRoots`).
- **Likes.** `likes` is an array, not a set: an unlike filters out every occurrence and a like appends. The model proves that a toggle keeps a duplicate-free list duplicate-free. On a duplicate-free list, toggling twice restores the likes as a multiset, not necessarily in the same order; the store keeps every like list duplicate-free.

## Model

| member | source | states |
|---|---|---|
| `Common.RemoveAll` | server/controllers/blogController.js:250 | The result holds exactly the elements of the input other than the removed one: every occurrence goes, nothing else does. |
| `Common.RemoveAllAppend` | server/controllers/blogController.js:250 | Removal keeps order: the result for a concatenation is the result for each part, one after the other. |
| `Common.RemoveAllSingle` | server/controllers/blogController.js:250 | On one element, removal keeps that element exactly when it differs from the removed one; with `RemoveAllAppend` this makes removal the order-preserving filter. |
| `Common.RemoveAllMultiset` | server/controllers/blogController.js:207-209 | As a multiset, removal sets the count of the removed id to zero and keeps every other count. |
| `Common.RemoveAllNoDup` | server/controllers/blogController.js:250 | Removal keeps a duplicate-free list duplicate-free. |
| `Common.RemoveAllAbsent` | server/controllers/blogController.js:207-209 | `$pull` of an id that the list does not hold leaves the list unchanged. |
| `BlogModel.Toggled` | server/controllers/blogController.js:246-253 | After a toggle the actor is a liker exactly when it was not one before. Every other user's like status is unchanged. A new like is appended at the end. |
| `BlogModel.ToggledKeepsNoDup` | server/controllers/blogController.js:246-253 | A duplicate-free like list stays duplicate-free after a toggle. |
| `BlogModel.ToggledCount` | server/controllers/blogController.js:246-253 | On a duplicate-free list, an unlike lowers the like count by one and a like raises it by one. |
| `BlogModel.ToggleTwiceSameLikers` | server/controllers/blogController.js:246-253 | Toggling twice restores the set of likers, whatever the list held. |
| `BlogModel.ToggleTwiceRestores` | server/controllers/blogController.js:246-253 | On a duplicate-free list, toggling twice restores the likes as a multiset. Starting from not liked, it restores the exact list. |
| `BlogModel.IsPublished` | server/controllers/blogController.js:239 | `blog.status !== "publish"` refuses exactly the blogs whose status is not "publish"; drafts and blogs in review are never published. The same test gates viewing (line 110) and commenting (line 293). |
| `Common.Option.GetOr` | server/controllers/blogController.js:164-166 | `x ?? old`: a present value is used whatever it is, and only an absent value falls back. |
| `BlogModel.Blank` | server/controllers/blogController.js:11 | `!field` holds unless the field is present and non-empty; whitespace-only text is not blank. |
| `BlogModel.IsAuthorOrAdmin` | server/controllers/blogController.js:150 | An admin passes for every blog; anyone else exactly for the blogs they authored. |
| `BlogModel.MayView` | server/controllers/blogController.js:109-114 | A published blog is viewable by everyone. An anonymous requester may view exactly the published blogs. A signed-in requester may view an unpublished blog exactly when it is the author or an admin. |
| `BlogController.CreateKeepsBackRefs` | server/controllers/blogController.js:18-28 | A blog with a fresh id, plus a `$push` of that id onto its author's list, keeps every back-reference list exact and duplicate-free. |
| `BlogController.DeleteKeepsBackRefs` | server/controllers/blogController.js:205-209 | Removing a blog and `$pull`-ing its id from its author's list keeps the lists exact. No user's list names the deleted blog afterwards. |
| `BlogController.EditKeepsBackRefs` | server/controllers/blogController.js:164-168 | Saving a changed blog with the same author keeps the back-reference lists exact. |
| `BlogController.PushBackRef` | server/controllers/blogController.js:26-28 | `$push` on an existing user appends the id to that user's list. A missing user is not created (no upsert). Every other user's list is unchanged. |
| `BlogController.PullBackRef` | server/controllers/blogController.js:207-209 | `$pull` on an existing user leaves no occurrence of the id and keeps every other id's membership. A missing user is not created. Every other user's list is unchanged. |
| `BlogController.BlogStore.CreateBlog` | server/controllers/blogController.js:9-28 | Returns 400 exactly when title or content is missing or empty, and then changes nothing. Otherwise it adds a new blog under a fresh id: author is the actor, likes and comments are empty, and status is the given status, or "draft" when that is missing or empty. The id is appended to the actor's list; every other list is unchanged. |
| `BlogController.BlogStore.UpdateBlog` | server/controllers/blogController.js:140-168 | Returns 404 when the blog is missing. Otherwise returns 403 unless the actor is the author or an admin. A refusal changes nothing. On success, each supplied title, content and status replaces the old one; an omitted one is kept. Any status may be set, "publish" included, with no role check. Nothing else changes. |
| `BlogController.BlogStore.DeleteBlog` | server/controllers/blogController.js:189-209 | Uses the same 404-then-403 gate as updateBlog. On success it removes exactly that blog and every occurrence of its id from its author's list. Other blogs and other users' lists are unchanged. |
| `BlogController.BlogStore.ToggleLike` | server/controllers/blogController.js:229-255 | Returns 404 for a missing blog. Returns 403 for an unpublished blog, whatever the actor's role, admin included. Otherwise it toggles the actor's like and nothing else changes. |
| `BlogController.BlogStore.AddComment` | server/controllers/blogController.js:275-305 | Returns 400 for missing or empty text before any lookup; whitespace-only text passes. Then 404 for a missing blog, then 403 for an unpublished one. On success it appends exactly `{user: actor, text}` after the existing comments. The request's `parentId` is not stored. |
| `BlogController.GetBlogById` | server/controllers/blogController.js:97-125 | Returns 404 exactly when the id is missing. Returns 403, not 404, exactly when the blog is unpublished and the requester is anonymous, or is neither its author nor an admin. Succeeds exactly when the blog exists and the requester may view it, and then returns the stored blog. |
| `BlogController.ViewPolicy` | server/controllers/blogController.js:109-119 | A published blog is returned to anonymous and signed-in requesters. An unpublished one gives anonymous requesters 403. A signed-in requester receives it exactly when it is the author or an admin. |
| `BlogController.SortNewestFirst` | server/controllers/blogController.js:53 | The sort lists each matched id exactly once, and createdAt never increases along the list. |
| `BlogController.GetAllBlogs` | server/controllers/blogController.js:51-53 | Lists exactly the published blogs, each once, newest first. |
| `BlogController.GetAllBlogsForAdmin` | server/controllers/blogController.js:74-76 | Lists every blog whatever its status, each once, newest first. |
| `BlogController.GetMyBlogs` | server/controllers/blogController.js:331-333 | Lists exactly the blogs the actor authored, each once, newest first. |
| `BlogController.DraftThenPublish` | server/controllers/blogController.js:108-119 | A blog created with no status is a draft, and an anonymous fetch gets 403. After its author updates it with only `status: "publish"`, an anonymous fetch returns it published, with title and content unchanged. |
| `CommentSection.BuildCommentTree` | client/src/components/CommentSection.jsx:24-41 | The lookup map has one node per id: the last comment carrying that id. Roots are the ids of the parentless comments, in input order. Each node's replies are the ids of all comments naming it, in input order, whether listed before or after it. Comments naming an absent parent land nowhere. |
| `CommentSection.IndexStep` | client/src/components/CommentSection.jsx:28-30 | One step of the first pass keeps the lookup map exact and every replies list empty. |
| `CommentSection.AttachStep` | client/src/components/CommentSection.jsx:32-38 | One step of the second pass extends the roots or the named parent's replies by that comment, and only when the parent is in the map. |
| `CommentSection.NodeOfIsLast` | client/src/components/CommentSection.jsx:29 | The node stored under an id is a comment of the list carrying that id, and no later comment carries it. |
| `CommentSection.NodeIsComment` | client/src/components/CommentSection.jsx:29 | With unique ids, each node carries exactly its comment's fields. |
| `CommentSection.ChildIdsMembers` | client/src/components/CommentSection.jsx:32-37 | An id is a root exactly when some comment with that id has no parent. It is a reply of `p` exactly when some comment with that id names `p`. |
| `CommentSection.ChildIdsAppend` | client/src/components/CommentSection.jsx:32-37 | Roots and replies keep input order: the lists for a concatenation are the lists for each part, one after the other. |
| `CommentSection.ChildIdsCount` | client/src/components/CommentSection.jsx:34-36 | The number of roots is the number of parentless comments. A node's reply count is the number of comments naming it. |
| `CommentSection.OrphanDropped` | client/src/components/CommentSection.jsx:33-35 | With unique ids, a comment whose parent id is not in the list is neither a root nor a reply of any node. |
| `CommentSection.PlacedAtMostOnce` | client/src/components/CommentSection.jsx:32-38 | With unique ids, the roots and every replies list are duplicate-free, and no id is listed under two parents. |
| `CommentSection.NoParentsAllRoots` | server/controllers/blogController.js:300-303 | Comments stored without a parent build a tree whose roots are all the comments, in order, and whose replies lists are all empty. |
| `CommentSection.DanglingParentExample` | client/src/components/CommentSection.jsx:33-35 | For comments 1 (no parent), 2 (parent 1) and 3 (parent 99), the roots are [1] and the replies of 1 are [2]. Comment 3 appears nowhere, because 99 is not an id. |
| `CommentSection.TrimStart` | client/src/components/CommentSection.jsx:45 | The result is a suffix of the input. Every character removed is trimmable, and the result does not start with a trimmable character. |
| `CommentSection.TrimEnd` | client/src/components/CommentSection.jsx:45 | The result is a prefix of the input. Every character removed is trimmable, and the result does not end with a trimmable character. |
| `CommentSection.Trim` | client/src/components/CommentSection.jsx:45 | `trim()` returns a slice of the text whose cut-off ends are all trimmable and whose own first and last characters are not. |
| `CommentSection.TrimEmptyIffAllTrimmable` | client/src/components/CommentSection.jsx:45 | Text trims to the empty string exactly when every character is trimmable. |
| `CommentSection.HandleSubmit` | client/src/components/CommentSection.jsx:43-48 | Nothing is posted exactly when the text is all whitespace. Otherwise the untrimmed text is posted as a top-level comment. |
| `CommentSection.HandleReply` | client/src/components/CommentSection.jsx:84-92 | Nothing is posted exactly when the reply is all whitespace. Otherwise the untrimmed text is posted with the replied-to comment's id as `parentId`. |
| `CommentSection.PostedTextNeverBlank` | server/controllers/blogController.js:277-282 | Any text the comment or reply form posts passes the server's empty-text check. |
| `BlogCard.IsAuthor` | client/src/components/BlogCard.jsx:10 | `user?._id === blog.author?._id`: with no viewer id, the viewer is the author exactly when the author id is absent too; otherwise exactly when both ids are present and equal. |
| `BlogCard.IsAdmin` | client/src/components/BlogCard.jsx:11 | A visitor is never admin; a user is admin exactly when its role is "admin". |
| `BlogCard.CanModify` | client/src/components/BlogCard.jsx:12 | An admin may modify every card. Anyone else may modify exactly the cards where it counts as author, which for a visitor means the author id is absent. |
| `BlogCard.IsLiked` | client/src/components/BlogCard.jsx:14 | Never liked without a viewer id or without a likes array; otherwise liked exactly when the viewer id is in the likes. |
| `BlogCard.ShowsLikeControl` | client/src/components/BlogCard.jsx:91 | `{user && …}`: the like control is shown exactly to a signed-in user, even one without an id. |
| `BlogCard.ShowsStatus` | client/src/components/BlogCard.jsx:58 | `{showActions && …}`: the status line is shown exactly with actions. |
| `BlogCard.ShowsEditDelete` | client/src/components/BlogCard.jsx:101 | `showActions && canModify`: never shown without actions; with actions, shown exactly when the viewer may modify; for an admin, shown exactly when actions are on. |
| `BlogCard.StatusColor` | client/src/components/BlogCard.jsx:26-31 | "green" exactly for "publish", "orange" exactly for "review", "gray" for every other status. |
| `BlogCard.LikeCount` | client/src/components/BlogCard.jsx:96 | The count is the length of `likes`, or 0 when `likes` is absent. |
| `BlogCard.Preview` | client/src/components/BlogCard.jsx:74 | The preview is a prefix of the content, at most 150 characters long, and shorter only when it is the whole content. |
| `BlogCard.ShownContent` | client/src/components/BlogCard.jsx:72-88 | Without actions the paragraph is the preview followed by "...". With actions it is the whole content. |
| `BlogCard.EditDeleteMatchesServerGate` | client/src/components/BlogCard.jsx:10-12 | For a signed-in user with an id, Edit/Delete are shown with actions exactly when the server's update/delete gate admits that user. They are never shown without actions. |
| `BlogCard.AbsentIdsCountAsAuthor` | client/src/components/BlogCard.jsx:10 | When both the viewer id and the author id are absent, the viewer counts as the author and sees Edit/Delete. |
| `BlogCard.LikeControlFollowsToggle` | client/src/components/BlogCard.jsx:14 | The card shows "liked" exactly when the server's likes hold the actor. After a toggleLike the indicator flips, and the shown count moves by one. |
| `BlogCard.VisitorControls` | client/src/components/BlogCard.jsx:91-101 | A visitor never gets the like control. A visitor sees Edit/Delete only on a card whose author id is absent. |
| `BlogCard.PreviewModeShowsNoActions` | client/src/components/BlogCard.jsx:58-74 | In preview mode there is no status line and no Edit/Delete. The shown text before "..." is a prefix of the content. |
| `BlogCard.GreenMeansPublic` | client/src/components/BlogCard.jsx:26-31 | The status colour is green exactly when the server shows the blog to anonymous readers and accepts likes and comments on it. |

## Left out

- Populating `author` and `comments.user` with name, surname and role: authors are plain ids. ObjectId-to-string comparisons are plain equality on ids.
- Response envelopes and message texts: only the outcome kind is kept. Also left out: `console.error` and every catch-all 500 path.
- Mongoose schema validation, which is not part of this model. For example, the model lets updateBlog set an empty title, as the controller code does.
- Request values that are not strings (numbers, booleans): body fields are modelled as optional strings.
- The id generator and the clock. A new blog's id comes from the store's counter `nextId`, which stands for a fresh ObjectId. Its `createdAt` is the `now` parameter. Ids that Mongoose gives embedded comments are not modelled on the server side.
- The two separate writes of createBlog and deleteBlog, and races between concurrent requests. Each handler is one atomic step, and a storage failure between its two writes is not modelled.
- The delete-comment endpoint: its server handler is not part of this model. Only the client's call to it exists (CommentSection.jsx:101-110).
- React state, effects, the click-outside listener, the recursive `CommentItem` rendering, `api` calls and `navigate`.
- The date shown on the card (`toLocaleDateString`), which depends on locale data.
- BlogCard.Preview: counts Dafny characters (Unicode scalar values), whereas `String.prototype.slice` counts UTF-16 code units. The two differ on text outside the Basic Multilingual Plane.
- CommentSection.BuildCommentTree: the lookup object is keyed by id only. An id equal to an inherited property name of a plain JavaScript object cannot occur with ObjectIds.
- GetAllBlogs, GetAllBlogsForAdmin and GetMyBlogs: blogs with equal createdAt come in an unspecified order, as with the database sort.
- The password-reset pages (client/src/pages/ResetPassword.jsx, client/src/pages/ForgotPassword.jsx). Their only logic is a one-line input check before a network call.
