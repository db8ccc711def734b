/** The blog document, the requester, the outcomes of a handler, and the pure
    rules the blog controller applies: its permission gates, the falsy-field
    test on request bodies, and the like toggle. */
module BlogModel {
  import opened Common

  type UserId = nat
  type BlogId = nat

  const PUBLISH: string := "publish"
  const REVIEW: string := "review"
  const DRAFT: string := "draft"
  const ADMIN: string := "admin"

  /** The authenticated requester (`req.user`): its id and its role. */
  datatype Actor = Actor(id: UserId, role: string)

  /** An embedded comment as the server stores it: only `{user, text}`. */
  datatype StoredComment = StoredComment(user: UserId, text: string)

  /** A blog document. `status` is free text: the controller stores whatever
      non-empty status a request supplies. */
  datatype Blog = Blog(
    title: string,
    content: string,
    status: string,
    author: UserId,
    likes: seq<UserId>,
    comments: seq<StoredComment>,
    createdAt: int)

  /** The refusals a handler answers with: HTTP 400, 403 and 404. */
  datatype Failure = BadRequest | Forbidden | NotFound

  /** What a state-changing handler answers. */
  datatype Outcome = Ok | Fail(reason: Failure)

  /** What a reading handler answers. */
  datatype Result<T> = Success(value: T) | Error(reason: Failure)

  /** JavaScript's `!field` on a request-body string: absent or empty. Any
      non-empty string is truthy, whitespace-only text included. */
  function Blank(field: Option<string>): (b: bool)
    ensures !b <==> field.Some? && |field.value| > 0
    ensures field.Some? && field.value == " " ==> !b
  {
    field.None? || field.value == ""
  }

  /** `blog.status === "publish"`: the gate for anonymous viewing, liking and
      commenting. Drafts and blogs in review are not published. */
  function IsPublished(blog: Blog): (b: bool)
    ensures b <==> blog.status == PUBLISH
    ensures blog.status == DRAFT || blog.status == REVIEW ==> !b
  {
    blog.status == PUBLISH
  }

  /** The gate of updateBlog and deleteBlog: the author, or an admin. An admin
      passes for every blog; anyone else only for the blogs they authored. */
  function IsAuthorOrAdmin(actor: Actor, blog: Blog): (b: bool)
    ensures actor.role == ADMIN ==> b
    ensures actor.role != ADMIN ==> (b <==> blog.author == actor.id)
  {
    blog.author == actor.id || actor.role == ADMIN
  }

  /** The gate of getBlogById: a published blog is visible to everyone, an
      unpublished one only to a present actor who is its author or an admin. */
  function MayView(actor: Option<Actor>, blog: Blog): (b: bool)
    ensures IsPublished(blog) ==> b
    ensures actor.None? ==> (b <==> IsPublished(blog))
    ensures actor.Some? && !IsPublished(blog) ==>
              (b <==> blog.author == actor.value.id || actor.value.role == ADMIN)
  {
    IsPublished(blog) || (actor.Some? && IsAuthorOrAdmin(actor.value, blog))
  }

  /** The likes after toggleLike: the actor removed everywhere when present,
      otherwise appended. */
  function Toggled(likes: seq<UserId>, u: UserId): (r: seq<UserId>)
    ensures u in r <==> u !in likes
    ensures forall v :: v != u ==> (v in r <==> v in likes)
    ensures u !in likes ==> r == likes + [u]
  {
    if u in likes then RemoveAll(likes, u) else likes + [u]
  }

  /** A duplicate-free like list stays duplicate-free. */
  lemma ToggledKeepsNoDup(likes: seq<UserId>, u: UserId)
    requires NoDup(likes)
    ensures NoDup(Toggled(likes, u))
  {
    if u in likes {
      RemoveAllNoDup(likes, u);
    } else {
      var r := likes + [u];
      forall i, j | 0 <= i < j < |r| ensures r[i] != r[j] {
        if j == |likes| {
          assert r[i] == likes[i];
        } else {
          assert r[i] == likes[i] && r[j] == likes[j];
        }
      }
    }
  }

  /** On a duplicate-free list, a toggle changes the like count by exactly one. */
  lemma ToggledCount(likes: seq<UserId>, u: UserId)
    requires NoDup(likes)
    ensures |Toggled(likes, u)| == if u in likes then |likes| - 1 else |likes| + 1
  {
    if u in likes {
      RemoveAllMultiset(likes, u);
      NoDupCountOne(likes, u);
      assert |multiset(RemoveAll(likes, u))| == |multiset(likes)| - 1;
    }
  }

  /** Toggling twice restores the set of likers, whatever the list held. */
  lemma ToggleTwiceSameLikers(likes: seq<UserId>, u: UserId)
    ensures forall v :: v in Toggled(Toggled(likes, u), u) <==> v in likes
  {
  }

  /** On a duplicate-free list, toggling twice restores the likes exactly as a
      multiset (the order may differ: an unlike followed by a like moves the
      actor to the end). */
  lemma ToggleTwiceRestores(likes: seq<UserId>, u: UserId)
    requires NoDup(likes)
    ensures multiset(Toggled(Toggled(likes, u), u)) == multiset(likes)
    ensures u !in likes ==> Toggled(Toggled(likes, u), u) == likes
  {
    if u in likes {
      var once := RemoveAll(likes, u);
      RemoveAllMultiset(likes, u);
      NoDupCountOne(likes, u);
      assert Toggled(once, u) == once + [u];
      assert multiset(once + [u]) == multiset(likes);
    } else {
      RemoveAllAppendLast(likes, u);
    }
  }

  /** Removing an actor just appended to a list that did not hold it gives the list back. */
  lemma {:induction false} RemoveAllAppendLast(likes: seq<UserId>, u: UserId)
    requires u !in likes
    ensures RemoveAll(likes + [u], u) == likes
  {
    var s := likes + [u];
    if likes == [] {
      assert s == [u];
    } else {
      assert s[1..] == likes[1..] + [u];
      RemoveAllAppendLast(likes[1..], u);
    }
  }
}
