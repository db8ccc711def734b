/** The blog controller's handlers over the document store: the Blog
    collection (blog id to document) and each user's `blogs` back-reference
    list from the User collection. */
module BlogController {
  import opened Common
  import opened BlogModel

  /** `User.findByIdAndUpdate(u, {$push: {blogs: id}})`: appends to an existing
      user's list; a user missing from the collection is not created. */
  function PushBackRef(userBlogs: map<UserId, seq<BlogId>>, u: UserId, id: BlogId): (r: map<UserId, seq<BlogId>>)
    ensures r.Keys == userBlogs.Keys
    ensures u in userBlogs ==> r[u] == userBlogs[u] + [id]
    ensures forall v :: v in userBlogs && v != u ==> r[v] == userBlogs[v]
  {
    if u in userBlogs then userBlogs[u := userBlogs[u] + [id]] else userBlogs
  }

  /** `User.findByIdAndUpdate(u, {$pull: {blogs: id}})`: removes every
      occurrence of `id` from an existing user's list. */
  function PullBackRef(userBlogs: map<UserId, seq<BlogId>>, u: UserId, id: BlogId): (r: map<UserId, seq<BlogId>>)
    ensures r.Keys == userBlogs.Keys
    ensures u in userBlogs ==> id !in r[u] && forall b :: b != id ==> (b in r[u] <==> b in userBlogs[u])
    ensures forall v :: v in userBlogs && v != u ==> r[v] == userBlogs[v]
  {
    if u in userBlogs then userBlogs[u := RemoveAll(userBlogs[u], id)] else userBlogs
  }

  /** Each user's back-reference list holds, once each, exactly the ids of
      the blogs that user authored. */
  ghost predicate BackRefsInSync(blogs: map<BlogId, Blog>, userBlogs: map<UserId, seq<BlogId>>) {
    forall u :: u in userBlogs ==>
      && NoDup(userBlogs[u])
      && forall id :: id in userBlogs[u] <==> id in blogs && blogs[id].author == u
  }

  /** Creating a blog with a fresh id and pushing that id onto its author's list keeps the lists in sync. */
  lemma CreateKeepsBackRefs(blogs: map<BlogId, Blog>, userBlogs: map<UserId, seq<BlogId>>, id: BlogId, blog: Blog)
    requires BackRefsInSync(blogs, userBlogs)
    requires id !in blogs
    ensures BackRefsInSync(blogs[id := blog], PushBackRef(userBlogs, blog.author, id))
  {
    var blogs' := blogs[id := blog];
    var ub' := PushBackRef(userBlogs, blog.author, id);
    forall u | u in ub'
      ensures NoDup(ub'[u])
      ensures forall x :: x in ub'[u] <==> x in blogs' && blogs'[x].author == u
    {
      if u == blog.author {
        var l := userBlogs[u];
        assert id !in l;
        assert ub'[u] == l + [id];
        forall i, j | 0 <= i < j < |l + [id]| ensures (l + [id])[i] != (l + [id])[j] {
          if j == |l| {
            assert (l + [id])[i] == l[i];
          } else {
            assert (l + [id])[i] == l[i] && (l + [id])[j] == l[j];
          }
        }
      } else {
        assert ub'[u] == userBlogs[u];
        assert id !in userBlogs[u];
      }
    }
  }

  /** Deleting a blog and pulling its id from its author's list keeps the lists
      in sync, and leaves no list that still names the deleted blog. */
  lemma DeleteKeepsBackRefs(blogs: map<BlogId, Blog>, userBlogs: map<UserId, seq<BlogId>>, id: BlogId)
    requires BackRefsInSync(blogs, userBlogs)
    requires id in blogs
    ensures BackRefsInSync(blogs - {id}, PullBackRef(userBlogs, blogs[id].author, id))
    ensures forall u :: u in userBlogs ==> id !in PullBackRef(userBlogs, blogs[id].author, id)[u]
  {
    var a := blogs[id].author;
    var ub' := PullBackRef(userBlogs, a, id);
    forall u | u in ub'
      ensures NoDup(ub'[u])
      ensures forall x :: x in ub'[u] <==> x in blogs - {id} && (blogs - {id})[x].author == u
    {
      if u == a {
        RemoveAllNoDup(userBlogs[u], id);
      } else {
        assert id !in userBlogs[u];
      }
    }
  }

  /** Replacing a blog by one with the same author keeps the lists in sync. */
  lemma EditKeepsBackRefs(blogs: map<BlogId, Blog>, userBlogs: map<UserId, seq<BlogId>>, id: BlogId, blog: Blog)
    requires BackRefsInSync(blogs, userBlogs)
    requires id in blogs && blog.author == blogs[id].author
    ensures BackRefsInSync(blogs[id := blog], userBlogs)
  {
    var blogs' := blogs[id := blog];
    forall u, x | u in userBlogs
      ensures x in userBlogs[u] <==> x in blogs' && blogs'[x].author == u
    {
      if x == id {
        assert blogs'[x].author == blogs[x].author;
      }
    }
  }

  /** The Blog and User collections as the controller sees them. */
  class BlogStore {
    var blogs: map<BlogId, Blog>
    var userBlogs: map<UserId, seq<BlogId>>
    /** Stands for the store's id generator: every id in use is below it. */
    var nextId: BlogId

    ghost predicate Valid()
      reads this
    {
      && (forall id :: id in blogs ==> id < nextId)
      && (forall id :: id in blogs ==> NoDup(blogs[id].likes))
      && BackRefsInSync(blogs, userBlogs)
    }

    /** A store with no blogs, whose User collection holds `users` with empty lists. */
    constructor (users: set<UserId>)
      ensures Valid()
      ensures blogs == map[] && userBlogs == map u | u in users :: []
    {
      blogs := map[];
      userBlogs := map u | u in users :: [];
      nextId := 0;
    }

    /** createBlog: 400 when title or content is missing or empty; otherwise a
        new draft-by-default blog authored by the actor, whose id is pushed onto
        the actor's back-reference list. */
    method CreateBlog(actor: Actor, title: Option<string>, content: Option<string>, status: Option<string>, now: int)
      returns (outcome: Outcome, id: BlogId)
      requires Valid()
      modifies this
      ensures Valid()
      ensures outcome == Fail(BadRequest) <==> Blank(title) || Blank(content)
      ensures outcome == Ok <==> !Blank(title) && !Blank(content)
      ensures outcome.Fail? ==> unchanged(this)
      ensures outcome == Ok ==>
        && id !in old(blogs)
        && blogs == old(blogs)[id := Blog(title.value, content.value,
                                          if Blank(status) then DRAFT else status.value,
                                          actor.id, [], [], now)]
        && userBlogs == PushBackRef(old(userBlogs), actor.id, id)
    {
      if Blank(title) || Blank(content) {
        return Fail(BadRequest), 0;
      }
      id := nextId;
      var blog := Blog(title.value, content.value, if Blank(status) then DRAFT else status.value, actor.id, [], [], now);
      CreateKeepsBackRefs(blogs, userBlogs, id, blog);
      blogs := blogs[id := blog];
      nextId := nextId + 1;
      userBlogs := PushBackRef(userBlogs, actor.id, id);
      outcome := Ok;
    }

    /** updateBlog: 404 before 403; the author or an admin replaces each field
        that the request supplies (`??`) and keeps the others. Any status may
        be set, "publish" included, by either. */
    method UpdateBlog(actor: Actor, id: BlogId, title: Option<string>, content: Option<string>, status: Option<string>)
      returns (outcome: Outcome)
      requires Valid()
      modifies this
      ensures Valid()
      ensures outcome == Fail(NotFound) <==> id !in old(blogs)
      ensures outcome == Fail(Forbidden) <==> id in old(blogs) && !IsAuthorOrAdmin(actor, old(blogs)[id])
      ensures outcome == Ok <==> id in old(blogs) && IsAuthorOrAdmin(actor, old(blogs)[id])
      ensures outcome.Fail? ==> unchanged(this)
      ensures outcome == Ok ==>
        && blogs == old(blogs)[id := old(blogs)[id].(title := title.GetOr(old(blogs)[id].title),
                                                     content := content.GetOr(old(blogs)[id].content),
                                                     status := status.GetOr(old(blogs)[id].status))]
        && userBlogs == old(userBlogs) && nextId == old(nextId)
    {
      if id !in blogs {
        return Fail(NotFound);
      }
      var blog := blogs[id];
      if !IsAuthorOrAdmin(actor, blog) {
        return Fail(Forbidden);
      }
      blog := blog.(title := title.GetOr(blog.title));
      blog := blog.(content := content.GetOr(blog.content));
      blog := blog.(status := status.GetOr(blog.status));
      EditKeepsBackRefs(blogs, userBlogs, id, blog);
      blogs := blogs[id := blog];
      outcome := Ok;
    }

    /** deleteBlog: 404 before 403; the author or an admin removes exactly
        that blog, and every occurrence of its id from its author's list. */
    method DeleteBlog(actor: Actor, id: BlogId) returns (outcome: Outcome)
      requires Valid()
      modifies this
      ensures Valid()
      ensures outcome == Fail(NotFound) <==> id !in old(blogs)
      ensures outcome == Fail(Forbidden) <==> id in old(blogs) && !IsAuthorOrAdmin(actor, old(blogs)[id])
      ensures outcome == Ok <==> id in old(blogs) && IsAuthorOrAdmin(actor, old(blogs)[id])
      ensures outcome.Fail? ==> unchanged(this)
      ensures outcome == Ok ==>
        && blogs == old(blogs) - {id}
        && userBlogs == PullBackRef(old(userBlogs), old(blogs)[id].author, id)
        && (forall u :: u in userBlogs ==> id !in userBlogs[u])
        && nextId == old(nextId)
    {
      if id !in blogs {
        return Fail(NotFound);
      }
      var blog := blogs[id];
      if !IsAuthorOrAdmin(actor, blog) {
        return Fail(Forbidden);
      }
      DeleteKeepsBackRefs(blogs, userBlogs, id);
      blogs := blogs - {id};
      userBlogs := PullBackRef(userBlogs, blog.author, id);
      outcome := Ok;
    }

    /** toggleLike: 404, then 403 for any unpublished blog whatever the
        actor's role; otherwise the actor's like is toggled. */
    method ToggleLike(actor: Actor, id: BlogId) returns (outcome: Outcome)
      requires Valid()
      modifies this
      ensures Valid()
      ensures outcome == Fail(NotFound) <==> id !in old(blogs)
      ensures outcome == Fail(Forbidden) <==> id in old(blogs) && !IsPublished(old(blogs)[id])
      ensures outcome == Ok <==> id in old(blogs) && IsPublished(old(blogs)[id])
      ensures outcome.Fail? ==> unchanged(this)
      ensures outcome == Ok ==>
        && blogs == old(blogs)[id := old(blogs)[id].(likes := Toggled(old(blogs)[id].likes, actor.id))]
        && userBlogs == old(userBlogs) && nextId == old(nextId)
    {
      if id !in blogs {
        return Fail(NotFound);
      }
      var blog := blogs[id];
      if !IsPublished(blog) {
        return Fail(Forbidden);
      }
      var userId := actor.id;
      var isLiked := userId in blog.likes;
      if isLiked {
        blog := blog.(likes := RemoveAll(blog.likes, userId));
      } else {
        blog := blog.(likes := blog.likes + [userId]);
      }
      ToggledKeepsNoDup(blogs[id].likes, userId);
      EditKeepsBackRefs(blogs, userBlogs, id, blog);
      blogs := blogs[id := blog];
      outcome := Ok;
    }

    /** addComment: 400 for missing or empty text before any lookup, then 404,
        then 403 for an unpublished blog; otherwise `{user, text}` is appended.
        The request's `parentId` is accepted and never stored. */
    method AddComment(actor: Actor, id: BlogId, text: Option<string>, parentId: Option<nat>)
      returns (outcome: Outcome)
      requires Valid()
      modifies this
      ensures Valid()
      ensures outcome == Fail(BadRequest) <==> Blank(text)
      ensures outcome == Fail(NotFound) <==> !Blank(text) && id !in old(blogs)
      ensures outcome == Fail(Forbidden) <==> !Blank(text) && id in old(blogs) && !IsPublished(old(blogs)[id])
      ensures outcome == Ok <==> !Blank(text) && id in old(blogs) && IsPublished(old(blogs)[id])
      ensures outcome.Fail? ==> unchanged(this)
      ensures outcome == Ok ==>
        && blogs == old(blogs)[id := old(blogs)[id].(comments := old(blogs)[id].comments + [StoredComment(actor.id, text.value)])]
        && userBlogs == old(userBlogs) && nextId == old(nextId)
    {
      if Blank(text) {
        return Fail(BadRequest);
      }
      if id !in blogs {
        return Fail(NotFound);
      }
      var blog := blogs[id];
      if !IsPublished(blog) {
        return Fail(Forbidden);
      }
      blog := blog.(comments := blog.comments + [StoredComment(actor.id, text.value)]);
      EditKeepsBackRefs(blogs, userBlogs, id, blog);
      blogs := blogs[id := blog];
      outcome := Ok;
    }
  }

  /** getBlogById: 404 for a missing id; 403 (not 404) for an existing blog
      the requester may not view; otherwise the blog. */
  function GetBlogById(blogs: map<BlogId, Blog>, actor: Option<Actor>, id: BlogId): (r: Result<Blog>)
    ensures r == Error(NotFound) <==> id !in blogs
    ensures r == Error(Forbidden) <==> id in blogs && !IsPublished(blogs[id])
                                       && (actor.None? || (blogs[id].author != actor.value.id && actor.value.role != ADMIN))
    ensures r.Success? <==> id in blogs && MayView(actor, blogs[id])
    ensures r.Success? ==> r.value == blogs[id]
  {
    if id !in blogs then Error(NotFound)
    else if !MayView(actor, blogs[id]) then Error(Forbidden)
    else Success(blogs[id])
  }

  /** The visibility rule seen from each kind of requester. */
  lemma ViewPolicy(blogs: map<BlogId, Blog>, id: BlogId, someone: Actor)
    requires id in blogs
    ensures IsPublished(blogs[id]) ==> GetBlogById(blogs, None, id) == Success(blogs[id])
    ensures IsPublished(blogs[id]) ==> GetBlogById(blogs, Some(someone), id) == Success(blogs[id])
    ensures !IsPublished(blogs[id]) ==> GetBlogById(blogs, None, id) == Error(Forbidden)
    ensures !IsPublished(blogs[id]) ==>
      (GetBlogById(blogs, Some(someone), id).Success? <==> someone.id == blogs[id].author || someone.role == ADMIN)
  {
  }

  /** The listing order: createdAt never increases along the list. */
  ghost predicate NewestFirst(blogs: map<BlogId, Blog>, r: seq<BlogId>) {
    && (forall i :: 0 <= i < |r| ==> r[i] in blogs)
    && (forall i, j :: 0 <= i < j < |r| ==> blogs[r[i]].createdAt >= blogs[r[j]].createdAt)
  }

  /** A non-empty set of blogs has a newest member. */
  lemma {:induction false} NewestExists(blogs: map<BlogId, Blog>, ids: set<BlogId>)
    requires ids != {} && ids <= blogs.Keys
    ensures exists x :: x in ids && forall y :: y in ids ==> blogs[y].createdAt <= blogs[x].createdAt
    decreases ids
  {
    var x :| x in ids;
    if ids != {x} {
      NewestExists(blogs, ids - {x});
      var m :| m in ids - {x} && forall y :: y in ids - {x} ==> blogs[y].createdAt <= blogs[m].createdAt;
      if blogs[m].createdAt < blogs[x].createdAt {
        assert forall y :: y in ids ==> blogs[y].createdAt <= blogs[x].createdAt;
      } else {
        assert forall y :: y in ids ==> blogs[y].createdAt <= blogs[m].createdAt;
      }
    }
  }

  /** `.sort({createdAt: -1})` over the matched ids: each once, newest first.
      Blogs created at the same instant may come in any order. */
  ghost function SortNewestFirst(blogs: map<BlogId, Blog>, ids: set<BlogId>): (r: seq<BlogId>)
    requires ids <= blogs.Keys
    ensures forall x :: x in r <==> x in ids
    ensures NoDup(r)
    ensures NewestFirst(blogs, r)
    decreases ids
  {
    if ids == {} then []
    else
      NewestExists(blogs, ids);
      var x :| x in ids && forall y :: y in ids ==> blogs[y].createdAt <= blogs[x].createdAt;
      [x] + SortNewestFirst(blogs, ids - {x})
  }

  /** getAllBlogs: every published blog, newest first. */
  ghost function GetAllBlogs(blogs: map<BlogId, Blog>): (r: seq<BlogId>)
    ensures forall id :: id in r <==> id in blogs && IsPublished(blogs[id])
    ensures NoDup(r) && NewestFirst(blogs, r)
  {
    SortNewestFirst(blogs, set id | id in blogs && IsPublished(blogs[id]))
  }

  /** getAllBlogsForAdmin: every blog whatever its status, newest first (the
      admin check belongs to the route, not to this handler). */
  ghost function GetAllBlogsForAdmin(blogs: map<BlogId, Blog>): (r: seq<BlogId>)
    ensures forall id :: id in r <==> id in blogs
    ensures NoDup(r) && NewestFirst(blogs, r)
  {
    SortNewestFirst(blogs, blogs.Keys)
  }

  /** getMyBlogs: every blog the actor authored, whatever its status, newest first. */
  ghost function GetMyBlogs(blogs: map<BlogId, Blog>, actor: Actor): (r: seq<BlogId>)
    ensures forall id :: id in r <==> id in blogs && blogs[id].author == actor.id
    ensures NoDup(r) && NewestFirst(blogs, r)
  {
    SortNewestFirst(blogs, set id | id in blogs && blogs[id].author == actor.id)
  }

  /** A fresh draft is hidden from anonymous readers until its author
      publishes it through updateBlog with only a status in the body. */
  method DraftThenPublish(author: Actor) returns (before: Result<Blog>, after: Result<Blog>)
    ensures before == Error(Forbidden)
    ensures after.Success? && after.value.status == PUBLISH
    ensures after.value.title == "Title" && after.value.content == "Body"
  {
    var store := new BlogStore({author.id});
    var created, id := store.CreateBlog(author, Some("Title"), Some("Body"), None, 0);
    before := GetBlogById(store.blogs, None, id);
    var updated := store.UpdateBlog(author, id, None, None, Some(PUBLISH));
    after := GetBlogById(store.blogs, None, id);
  }
}
