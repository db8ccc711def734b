/** The blog card's display rules: who counts as author or admin, whether the
    viewer has liked the blog, the status colour, the preview text, the like
    count, and which controls are shown. */
module BlogCard {
  import opened Common
  import opened BlogModel

  /** The logged-in user as the client holds it: `_id` and `role` may be absent. */
  datatype CardUser = CardUser(id: Option<UserId>, role: Option<string>)

  /** The fields of a blog the card reads. `authorId` is `blog.author?._id`:
      absent when the author is missing or not populated. */
  datatype CardBlog = CardBlog(authorId: Option<UserId>, status: string, content: string, likes: Option<seq<UserId>>)

  const PREVIEW_LENGTH: nat := 150

  /** `user?._id`. */
  function ViewerId(user: Option<CardUser>): Option<UserId> {
    if user.Some? then user.value.id else None
  }

  /** `user?._id === blog.author?._id`: two absent ids compare equal. */
  function IsAuthor(user: Option<CardUser>, blog: CardBlog): (b: bool)
    ensures ViewerId(user).None? ==> (b <==> blog.authorId.None?)
    ensures ViewerId(user).Some? ==> (b <==> blog.authorId.Some? && blog.authorId.value == ViewerId(user).value)
  {
    ViewerId(user) == blog.authorId
  }

  /** `user?.role === "admin"`. */
  function IsAdmin(user: Option<CardUser>): (b: bool)
    ensures user.None? ==> !b
    ensures user.Some? ==> (b <==> user.value.role == Some(ADMIN))
  {
    user.Some? && user.value.role == Some(ADMIN)
  }

  /** `isAuthor || isAdmin`: an admin may modify every card; anyone else only
      the cards where `IsAuthor` holds, which for a visitor means the author id
      is absent. */
  function CanModify(user: Option<CardUser>, blog: CardBlog): (b: bool)
    ensures IsAdmin(user) ==> b
    ensures !IsAdmin(user) ==> (b <==> IsAuthor(user, blog))
    ensures user.None? ==> (b <==> blog.authorId.None?)
  {
    IsAuthor(user, blog) || IsAdmin(user)
  }

  /** `blog.likes?.includes(user?._id)`: likes hold ids only, so an absent
      viewer id is never included. */
  function IsLiked(user: Option<CardUser>, blog: CardBlog): (b: bool)
    ensures ViewerId(user).None? || blog.likes.None? ==> !b
    ensures ViewerId(user).Some? && blog.likes.Some? ==> (b <==> ViewerId(user).value in blog.likes.value)
  {
    blog.likes.Some? && ViewerId(user).Some? && ViewerId(user).value in blog.likes.value
  }

  /** The colour of the status line: green when published, orange in review, gray otherwise. */
  function StatusColor(status: string): (colour: string)
    ensures colour == "green" <==> status == PUBLISH
    ensures colour == "orange" <==> status == REVIEW
    ensures colour == "gray" <==> status != PUBLISH && status != REVIEW
  {
    if status == PUBLISH then "green" else if status == REVIEW then "orange" else "gray"
  }

  /** `blog.likes?.length || 0`. */
  function LikeCount(blog: CardBlog): (n: nat)
    ensures blog.likes.None? ==> n == 0
    ensures blog.likes.Some? ==> n == |blog.likes.value|
  {
    if blog.likes.Some? then |blog.likes.value| else 0
  }

  /** `content.slice(0, 150)`: the longest prefix of at most 150 characters. */
  function Preview(content: string): (r: string)
    ensures |r| <= PREVIEW_LENGTH && r <= content
    ensures |r| < PREVIEW_LENGTH ==> r == content
  {
    if |content| <= PREVIEW_LENGTH then content else content[..PREVIEW_LENGTH]
  }

  /** The content paragraph: the preview followed by "..." when actions are
      hidden, the whole content otherwise. */
  function ShownContent(blog: CardBlog, showActions: bool): (r: string)
    ensures !showActions ==> r == Preview(blog.content) + "..." && |r| <= PREVIEW_LENGTH + 3
    ensures showActions ==> r == blog.content
  {
    if !showActions then Preview(blog.content) + "..." else blog.content
  }

  /** The like control is shown to a logged-in user only. */
  function ShowsLikeControl(user: Option<CardUser>): (b: bool)
    ensures b <==> user.Some?
    ensures user.Some? && user.value.id.None? ==> b
  {
    user.Some?
  }

  /** The status line is shown only with actions (dashboard view). */
  function ShowsStatus(showActions: bool): (b: bool)
    ensures b <==> showActions
  {
    showActions
  }

  /** Edit and Delete are shown with actions, to a viewer who may modify. */
  function ShowsEditDelete(user: Option<CardUser>, blog: CardBlog, showActions: bool): (b: bool)
    ensures !showActions ==> !b
    ensures showActions ==> (b <==> CanModify(user, blog))
    ensures IsAdmin(user) ==> (b <==> showActions)
  {
    showActions && CanModify(user, blog)
  }

  /** The card of a stored blog, author populated. */
  function CardOf(blog: Blog): CardBlog {
    CardBlog(Some(blog.author), blog.status, blog.content, Some(blog.likes))
  }

  /** The client user of an authenticated actor. */
  function UserOf(actor: Actor): CardUser {
    CardUser(Some(actor.id), Some(actor.role))
  }

  /** For a logged-in user with an id, the Edit/Delete buttons appear exactly
      when the server's update and delete gate lets that user through. */
  lemma EditDeleteMatchesServerGate(actor: Actor, blog: Blog)
    ensures ShowsEditDelete(Some(UserOf(actor)), CardOf(blog), true) <==> IsAuthorOrAdmin(actor, blog)
    ensures !ShowsEditDelete(Some(UserOf(actor)), CardOf(blog), false)
  {
  }

  /** Two absent ids make the viewer the author: a visitor, or a user without
      `_id`, sees Edit/Delete on a card whose author is not populated. */
  lemma AbsentIdsCountAsAuthor(user: Option<CardUser>, blog: CardBlog)
    requires ViewerId(user).None? && blog.authorId.None?
    ensures IsAuthor(user, blog) && ShowsEditDelete(user, blog, true)
  {
  }

  /** The heart shows "Unlike" exactly when the server holds the actor's like,
      and each toggleLike flips it and moves a duplicate-free count by one. */
  lemma LikeControlFollowsToggle(actor: Actor, blog: Blog)
    requires NoDup(blog.likes)
    ensures IsLiked(Some(UserOf(actor)), CardOf(blog)) <==> actor.id in blog.likes
    ensures var after := blog.(likes := Toggled(blog.likes, actor.id));
            && IsLiked(Some(UserOf(actor)), CardOf(after)) == !IsLiked(Some(UserOf(actor)), CardOf(blog))
            && LikeCount(CardOf(after)) == if actor.id in blog.likes then LikeCount(CardOf(blog)) - 1
                                           else LikeCount(CardOf(blog)) + 1
  {
    ToggledCount(blog.likes, actor.id);
  }

  /** A visitor never gets the like control, and gets Edit/Delete only on a
      card whose author id is absent. */
  lemma VisitorControls(blog: CardBlog)
    ensures !ShowsLikeControl(None)
    ensures ShowsEditDelete(None, blog, true) <==> blog.authorId.None?
  {
  }

  /** In preview mode no status line and no Edit/Delete are shown, and the
      content paragraph holds at most 150 characters of content plus "...". */
  lemma PreviewModeShowsNoActions(user: Option<CardUser>, blog: CardBlog)
    ensures !ShowsStatus(false) && !ShowsEditDelete(user, blog, false)
    ensures ShownContent(blog, false)[..|ShownContent(blog, false)| - 3] <= blog.content
  {
  }

  /** The card's status colour is green exactly when the server lets anyone
      view, like and comment on the blog. */
  lemma GreenMeansPublic(blog: Blog)
    ensures StatusColor(blog.status) == "green" <==> IsPublished(blog)
    ensures StatusColor(blog.status) == "green" <==> MayView(None, blog)
  {
  }
}
