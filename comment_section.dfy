/** The client's comment section: the reply tree built from a blog's flat
    comment list, and the blank-text guards in front of posting a comment or
    a reply. */
module CommentSection {
  import opened Common
  import BlogModel

  type CommentId = nat

  /** A comment as the client receives it. `parent` is `None` when the field is
      falsy (absent or null); comment ids are never falsy. */
  datatype Comment = Comment(id: CommentId, parent: Option<CommentId>, user: BlogModel.UserId, text: string)

  /** The built tree, kept flat because parent links may form cycles: the node
      stored under each id (the comment's fields), the root ids in order, and
      each node's `replies` as an ordered list of child ids. */
  datatype CommentTree = CommentTree(
    nodes: map<CommentId, Comment>,
    roots: seq<CommentId>,
    replies: map<CommentId, seq<CommentId>>)

  /** The ids occurring in the list. */
  function Ids(cs: seq<Comment>): set<CommentId> {
    if cs == [] then {} else Ids(cs[..|cs| - 1]) + {cs[|cs| - 1].id}
  }

  /** An id is in `Ids` exactly when some comment carries it. */
  lemma {:induction false} IdsMembers(cs: seq<Comment>)
    ensures forall x :: x in Ids(cs) <==> exists i :: 0 <= i < |cs| && cs[i].id == x
  {
    if cs != [] {
      var init := cs[..|cs| - 1];
      IdsMembers(init);
      assert forall i :: 0 <= i < |init| ==> init[i] == cs[i];
    }
  }

  /** The ids, in list order, of the comments whose parent field is `parent`:
      with `None` these are the roots, with `Some(p)` the replies of `p`. */
  function ChildIds(cs: seq<Comment>, parent: Option<CommentId>): seq<CommentId> {
    if cs == [] then []
    else ChildIds(cs[..|cs| - 1], parent) + (if cs[|cs| - 1].parent == parent then [cs[|cs| - 1].id] else [])
  }

  /** The node the lookup map holds for `x`: the last comment with that id,
      since a later assignment overwrites an earlier one. */
  function NodeOf(cs: seq<Comment>, x: CommentId): Comment
    requires x in Ids(cs)
  {
    var last := cs[|cs| - 1];
    if last.id == x then last else NodeOf(cs[..|cs| - 1], x)
  }

  /** The node for `x` is a comment of the list carrying id `x`, and no later comment carries `x`. */
  lemma {:induction false} NodeOfIsLast(cs: seq<Comment>, x: CommentId)
    requires x in Ids(cs)
    ensures NodeOf(cs, x).id == x
    ensures exists i :: 0 <= i < |cs| && cs[i] == NodeOf(cs, x) && forall j :: i < j < |cs| ==> cs[j].id != x
  {
    var n := |cs| - 1;
    if cs[n].id != x {
      var init := cs[..n];
      NodeOfIsLast(init, x);
      var i :| 0 <= i < n && init[i] == NodeOf(init, x) && forall j :: i < j < n ==> init[j].id != x;
      assert cs[i] == init[i];
      assert forall j :: i < j < n ==> cs[j] == init[j];
    }
  }

  predicate UniqueIds(cs: seq<Comment>) {
    forall i, j :: 0 <= i < j < |cs| ==> cs[i].id != cs[j].id
  }

  /** What one more comment adds to the ids and to the nodes. */
  lemma NodesStep(cs: seq<Comment>, i: nat)
    requires i < |cs|
    ensures Ids(cs[..i + 1]) == Ids(cs[..i]) + {cs[i].id}
    ensures forall x :: x in Ids(cs[..i + 1]) ==>
      NodeOf(cs[..i + 1], x) == if x == cs[i].id then cs[i] else NodeOf(cs[..i], x)
  {
    var c := cs[..i + 1];
    assert c[..|c| - 1] == cs[..i] && c[|c| - 1] == cs[i];
    forall x | x in Ids(c)
      ensures NodeOf(c, x) == if x == cs[i].id then cs[i] else NodeOf(cs[..i], x)
    {
      if x != cs[i].id {
        assert NodeOf(c, x) == NodeOf(c[..|c| - 1], x);
      }
    }
  }

  /** What one more comment adds to the child lists. */
  lemma ChildStep(cs: seq<Comment>, i: nat, p: Option<CommentId>)
    requires i < |cs|
    ensures ChildIds(cs[..i + 1], p) == ChildIds(cs[..i], p) + (if cs[i].parent == p then [cs[i].id] else [])
  {
    var c := cs[..i + 1];
    assert c[..|c| - 1] == cs[..i] && c[|c| - 1] == cs[i];
  }

  /** The lookup map after the first pass over `cs`: one node per id, the last comment carrying it. */
  ghost predicate NodesFor(cs: seq<Comment>, nodes: map<CommentId, Comment>) {
    nodes.Keys == Ids(cs) && forall x :: x in nodes ==> nodes[x] == NodeOf(cs, x)
  }

  /** One replies list per id of `cs`, holding the children named by the comments of `seen`. */
  ghost predicate RepliesFor(cs: seq<Comment>, replies: map<CommentId, seq<CommentId>>, seen: seq<Comment>) {
    replies.Keys == Ids(cs) && forall x :: x in replies ==> replies[x] == ChildIds(seen, Some(x))
  }

  /** One step of the first pass keeps the lookup map and the empty replies lists exact. */
  lemma IndexStep(cs: seq<Comment>, i: nat, nodes: map<CommentId, Comment>, replies: map<CommentId, seq<CommentId>>)
    requires i < |cs|
    requires NodesFor(cs[..i], nodes) && RepliesFor(cs[..i], replies, [])
    ensures NodesFor(cs[..i + 1], nodes[cs[i].id := cs[i]])
    ensures RepliesFor(cs[..i + 1], replies[cs[i].id := []], [])
  {
    NodesStep(cs, i);
  }

  /** One step of the second pass keeps the roots and the replies lists exact. */
  lemma AttachStep(cs: seq<Comment>, i: nat, replies: map<CommentId, seq<CommentId>>, replies': map<CommentId, seq<CommentId>>)
    requires i < |cs|
    requires RepliesFor(cs, replies, cs[..i])
    requires replies' == if cs[i].parent.Some? && cs[i].parent.value in replies
                         then replies[cs[i].parent.value := replies[cs[i].parent.value] + [cs[i].id]]
                         else replies
    ensures RepliesFor(cs, replies', cs[..i + 1])
    ensures ChildIds(cs[..i + 1], None) == ChildIds(cs[..i], None) + (if cs[i].parent.None? then [cs[i].id] else [])
  {
    ChildStep(cs, i, None);
    forall x | x in replies' ensures replies'[x] == ChildIds(cs[..i + 1], Some(x)) {
      ChildStep(cs, i, Some(x));
    }
  }

  /** buildCommentTree: a first pass maps every id to a node with no replies;
      a second pass appends each comment with a parent to that parent's
      replies when the parent is in the map (and drops it otherwise), and
      appends each comment without a parent to the roots. */
  method BuildCommentTree(comments: seq<Comment>) returns (tree: CommentTree)
    ensures NodesFor(comments, tree.nodes)
    ensures tree.roots == ChildIds(comments, None)
    ensures RepliesFor(comments, tree.replies, comments)
  {
    var nodes: map<CommentId, Comment> := map[];
    var replies: map<CommentId, seq<CommentId>> := map[];
    var i := 0;
    while i < |comments|
      invariant 0 <= i <= |comments|
      invariant NodesFor(comments[..i], nodes)
      invariant RepliesFor(comments[..i], replies, [])
    {
      IndexStep(comments, i, nodes, replies);
      nodes := nodes[comments[i].id := comments[i]];
      replies := replies[comments[i].id := []];
      i := i + 1;
    }
    assert comments[..i] == comments;
    var roots: seq<CommentId> := [];
    i := 0;
    while i < |comments|
      invariant 0 <= i <= |comments|
      invariant roots == ChildIds(comments[..i], None)
      invariant RepliesFor(comments, replies, comments[..i])
    {
      var comment := comments[i];
      ghost var before := replies;
      if comment.parent.Some? {
        var p := comment.parent.value;
        if p in replies {
          replies := replies[p := replies[p] + [comment.id]];
        }
      } else {
        roots := roots + [comment.id];
      }
      AttachStep(comments, i, before, replies);
      i := i + 1;
    }
    assert comments[..i] == comments;
    tree := CommentTree(nodes, roots, replies);
  }

  /** The children of `parent` in a concatenation are those of the first part
      followed by those of the second: lists keep input order. */
  lemma {:induction false} ChildIdsAppend(a: seq<Comment>, b: seq<Comment>, parent: Option<CommentId>)
    ensures ChildIds(a + b, parent) == ChildIds(a, parent) + ChildIds(b, parent)
  {
    if b != [] {
      var ab := a + b;
      assert ab[..|ab| - 1] == a + b[..|b| - 1];
      ChildIdsAppend(a, b[..|b| - 1], parent);
    } else {
      assert a + b == a;
    }
  }

  /** An id is listed under `parent` exactly when some comment with that id names `parent`. */
  lemma {:induction false} ChildIdsMembers(cs: seq<Comment>, parent: Option<CommentId>)
    ensures forall x :: x in ChildIds(cs, parent) <==> exists i :: 0 <= i < |cs| && cs[i].id == x && cs[i].parent == parent
  {
    if cs != [] {
      var init := cs[..|cs| - 1];
      ChildIdsMembers(init, parent);
      assert forall i :: 0 <= i < |init| ==> init[i] == cs[i];
    }
  }

  /** The set of indices of the comments that name `parent`. */
  function NamingIndices(cs: seq<Comment>, parent: Option<CommentId>): set<nat> {
    set i | 0 <= i < |cs| && cs[i].parent == parent
  }

  /** There is one entry under `parent` per comment naming it: the number of
      roots is the number of comments without a parent, and a node's reply
      count is the number of comments naming it. */
  lemma {:induction false} ChildIdsCount(cs: seq<Comment>, parent: Option<CommentId>)
    ensures |ChildIds(cs, parent)| == |NamingIndices(cs, parent)|
  {
    if cs != [] {
      var n := |cs| - 1;
      var init := cs[..n];
      ChildIdsCount(init, parent);
      assert forall i :: 0 <= i < n ==> init[i] == cs[i];
      if cs[n].parent == parent {
        assert NamingIndices(cs, parent) == NamingIndices(init, parent) + {n};
      } else {
        assert NamingIndices(cs, parent) == NamingIndices(init, parent);
      }
    }
  }

  /** With unique ids, each node carries exactly the fields of its comment. */
  lemma NodeIsComment(cs: seq<Comment>, i: nat)
    requires UniqueIds(cs) && i < |cs|
    ensures cs[i].id in Ids(cs) && NodeOf(cs, cs[i].id) == cs[i]
  {
    IdsMembers(cs);
    NodeOfIsLast(cs, cs[i].id);
  }

  /** With unique ids, a comment whose parent id is not in the list is
      dropped: it is neither a root nor a reply of any node. */
  lemma OrphanDropped(cs: seq<Comment>, i: nat)
    requires UniqueIds(cs) && i < |cs|
    requires cs[i].parent.Some? && cs[i].parent.value !in Ids(cs)
    ensures cs[i].id !in ChildIds(cs, None)
    ensures forall p :: p in Ids(cs) ==> cs[i].id !in ChildIds(cs, Some(p))
  {
    ChildIdsMembers(cs, None);
    forall p | p in Ids(cs) ensures cs[i].id !in ChildIds(cs, Some(p)) {
      ChildIdsMembers(cs, Some(p));
    }
  }

  /** With unique ids, a comment appears at most once in the whole tree: the
      roots and every replies list are duplicate-free, and no id sits under
      two different parent values. */
  lemma PlacedAtMostOnce(cs: seq<Comment>, p: Option<CommentId>, q: Option<CommentId>, x: CommentId)
    requires UniqueIds(cs)
    ensures NoDup(ChildIds(cs, p))
    ensures x in ChildIds(cs, p) && x in ChildIds(cs, q) ==> p == q
  {
    ChildIdsMembers(cs, p);
    ChildIdsMembers(cs, q);
    ChildIdsNoDup(cs, p);
  }

  lemma {:induction false} ChildIdsNoDup(cs: seq<Comment>, p: Option<CommentId>)
    requires UniqueIds(cs)
    ensures NoDup(ChildIds(cs, p))
  {
    if cs != [] {
      var n := |cs| - 1;
      var init := cs[..n];
      assert UniqueIds(init) by {
        assert forall i :: 0 <= i < n ==> init[i] == cs[i];
      }
      ChildIdsNoDup(init, p);
      ChildIdsMembers(init, p);
      var prev := ChildIds(init, p);
      if cs[n].parent == p {
        assert cs[n].id !in prev by {
          assert forall i :: 0 <= i < n ==> init[i] == cs[i];
        }
        var r := prev + [cs[n].id];
        forall i, j | 0 <= i < j < |r| ensures r[i] != r[j] {
          if j == |prev| {
            assert r[i] == prev[i];
          } else {
            assert r[i] == prev[i] && r[j] == prev[j];
          }
        }
      }
    }
  }

  /** Every comment the server stores has no parent, so a list fetched from it
      builds a tree whose roots are all comments, in order, and whose replies
      lists are all empty. */
  lemma {:induction false} NoParentsAllRoots(cs: seq<Comment>)
    requires forall i :: 0 <= i < |cs| ==> cs[i].parent.None?
    ensures ChildIds(cs, None) == seq(|cs|, i requires 0 <= i < |cs| => cs[i].id)
    ensures forall p :: ChildIds(cs, Some(p)) == []
  {
    if cs != [] {
      var init := cs[..|cs| - 1];
      NoParentsAllRoots(init);
    }
  }

  /** A root, its reply, and a comment naming an absent parent, which is dropped. */
  lemma DanglingParentExample(cs: seq<Comment>)
    requires cs == [Comment(1, None, 7, "a"), Comment(2, Some(1), 7, "b"), Comment(3, Some(99), 7, "c")]
    ensures ChildIds(cs, None) == [1]
    ensures ChildIds(cs, Some(1)) == [2]
    ensures Ids(cs) == {1, 2, 3}
    ensures forall p :: p in Ids(cs) ==> 3 !in ChildIds(cs, Some(p))
  {
    var one, two := [cs[0]], [cs[0], cs[1]];
    assert one[..0] == [] && two[..1] == one && cs[..2] == two;
    assert ChildIds(one, None) == ChildIds([], None) + [1] == [1];
    assert ChildIds(one, Some(1)) == ChildIds([], Some(1)) + [] == [];
    assert Ids(one) == Ids([]) + {1} == {1};
    assert ChildIds(two, None) == ChildIds(one, None) + [] == [1];
    assert ChildIds(two, Some(1)) == ChildIds(one, Some(1)) + [2] == [2];
    assert Ids(two) == Ids(one) + {2} == {1, 2};
    assert UniqueIds(cs);
    OrphanDropped(cs, 2);
  }

  // ---- Blank-text guards -------------------------------------------------

  /** The characters JavaScript's `String.prototype.trim` removes: white space
      and line terminators. */
  predicate IsTrimmable(c: char) {
    var n := c as int;
    n == 0x09 || n == 0x0A || n == 0x0B || n == 0x0C || n == 0x0D || n == 0x20
    || n == 0xA0 || n == 0x1680 || (0x2000 <= n <= 0x200A) || n == 0x2028 || n == 0x2029
    || n == 0x202F || n == 0x205F || n == 0x3000 || n == 0xFEFF
  }

  function TrimStart(s: string): (r: string)
    ensures |r| <= |s| && r == s[|s| - |r|..]
    ensures forall i :: 0 <= i < |s| - |r| ==> IsTrimmable(s[i])
    ensures r != [] ==> !IsTrimmable(r[0])
  {
    if s != [] && IsTrimmable(s[0]) then TrimStart(s[1..]) else s
  }

  function TrimEnd(s: string): (r: string)
    ensures |r| <= |s| && r == s[..|r|]
    ensures forall i :: |r| <= i < |s| ==> IsTrimmable(s[i])
    ensures r != [] ==> !IsTrimmable(r[|r| - 1])
  {
    if s != [] && IsTrimmable(s[|s| - 1]) then TrimEnd(s[..|s| - 1]) else s
  }

  /** `r` is the slice of `s` starting at `k`, and everything cut off before
      and after it is trimmable. */
  predicate SliceWithTrimmableEnds(s: string, r: string, k: nat) {
    && k + |r| <= |s| && r == s[k..k + |r|]
    && (forall i :: 0 <= i < k ==> IsTrimmable(s[i]))
    && (forall i :: k + |r| <= i < |s| ==> IsTrimmable(s[i]))
  }

  /** `s.trim()`: a slice of `s` whose cut-off ends are all trimmable and
      whose own ends are not. */
  function Trim(s: string): (r: string)
    ensures r != [] ==> !IsTrimmable(r[0]) && !IsTrimmable(r[|r| - 1])
    ensures exists k: nat :: SliceWithTrimmableEnds(s, r, k)
  {
    TrimIsSlice(s);
    TrimEnd(TrimStart(s))
  }

  lemma TrimIsSlice(s: string)
    ensures SliceWithTrimmableEnds(s, TrimEnd(TrimStart(s)), |s| - |TrimStart(s)|)
  {
    SuffixThenPrefix(s, TrimStart(s), TrimEnd(TrimStart(s)));
  }

  /** A prefix `r` of a suffix `t` of `s`, with only trimmable characters cut
      off at either end, is a slice of `s` with trimmable ends. */
  lemma SuffixThenPrefix(s: string, t: string, r: string)
    requires |t| <= |s| && t == s[|s| - |t|..]
    requires forall i :: 0 <= i < |s| - |t| ==> IsTrimmable(s[i])
    requires |r| <= |t| && r == t[..|r|]
    requires forall i :: |r| <= i < |t| ==> IsTrimmable(t[i])
    ensures SliceWithTrimmableEnds(s, r, |s| - |t|)
  {
    var k := |s| - |t|;
    assert r == s[k..k + |r|] by {
      assert s[k..][..|r|] == s[k..k + |r|];
    }
    forall i | k + |r| <= i < |s| ensures IsTrimmable(s[i]) {
      assert s[i] == t[i - k];
    }
  }

  /** `!s.trim()`: the text trims to nothing exactly when every character is trimmable. */
  lemma TrimEmptyIffAllTrimmable(s: string)
    ensures Trim(s) == [] <==> forall i :: 0 <= i < |s| ==> IsTrimmable(s[i])
  {
    var t := TrimStart(s);
    if t != [] {
      assert !IsTrimmable(t[0]) && t[0] == s[|s| - |t|];
    }
  }

  /** The body the client posts to the add-comment endpoint. */
  datatype CommentRequest = CommentRequest(text: string, parentId: Option<CommentId>)

  /** handleSubmit: nothing is posted when the text trims to empty; otherwise
      the untrimmed text is posted as a top-level comment. */
  function HandleSubmit(content: string): (r: Option<CommentRequest>)
    ensures r.None? <==> forall i :: 0 <= i < |content| ==> IsTrimmable(content[i])
    ensures r.Some? ==> r.value == CommentRequest(content, None)
  {
    TrimEmptyIffAllTrimmable(content);
    if Trim(content) == [] then None else Some(CommentRequest(content, None))
  }

  /** handleReply: the same guard; otherwise the untrimmed text is posted with
      the replied-to comment's id as `parentId`. */
  function HandleReply(replyText: string, target: CommentId): (r: Option<CommentRequest>)
    ensures r.None? <==> forall i :: 0 <= i < |replyText| ==> IsTrimmable(replyText[i])
    ensures r.Some? ==> r.value == CommentRequest(replyText, Some(target))
  {
    TrimEmptyIffAllTrimmable(replyText);
    if Trim(replyText) == [] then None else Some(CommentRequest(replyText, Some(target)))
  }

  /** Whatever either form posts passes the server's empty-text check. */
  lemma PostedTextNeverBlank(content: string, target: CommentId)
    ensures HandleSubmit(content).Some? ==> !BlogModel.Blank(Some(HandleSubmit(content).value.text))
    ensures HandleReply(content, target).Some? ==> !BlogModel.Blank(Some(HandleReply(content, target).value.text))
  {
  }
}
