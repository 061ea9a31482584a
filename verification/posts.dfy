/** The handlers of the posts router (routes/api/posts.js): create, list,
    fetch and delete posts, toggle a like, add and delete comments. The
    requester is the id the authentication middleware put on the request. */
module Posts {

  import opened Seqs
  import opened Records

  const PostMissing := Response(NotFound, Message("Post not found"))

  // ------------------------------------------------------------ create a post

  /** POST api/posts. `newId` is the `_id` the store mints and `now` the
      creation time it stamps. The author's name and avatar are copied from
      the requester's user record; a requester without one makes the handler
      dereference null, which the catch turns into a 500. */
  function CreatePost(st: Store, requester: Id, text: string, newId: Id, now: int): (o: Outcome)
    requires !Contains(st.posts, PostId, newId)
    ensures text == "" ==>
      o == Outcome(Response(BadRequest, Errors([FieldError("text", "Text is required")])), st)
    ensures text != "" && FindUser(st.users, requester).None? ==> o == Failed(st)
    ensures o.response.status == OK <==> text != "" && FindUser(st.users, requester).Some?
    ensures o.response.status == OK ==>
      && o.response.body.PostBody?
      && var p := o.response.body.post;
         var u := FindUser(st.users, requester).value;
         && p.id == newId && p.user == requester && p.text == text
         && p.name == u.name && p.avatar == u.avatar
         && p.likes == [] && p.comments == [] && p.date == now
         && o.after == st.(posts := st.posts + [p])
    ensures Valid(st) ==> Valid(o.after)
  {
    if text == "" then
      Outcome(Response(BadRequest, Errors([FieldError("text", "Text is required")])), st)
    else
      match FindUser(st.users, requester)
      case None => Failed(st)
      case Some(u) =>
        var p := Post(newId, requester, text, u.name, u.avatar, [], [], now);
        assert Valid(st) ==> Distinct(st.posts + [p], PostId) by {
          if Valid(st) { DistinctAppend(st.posts, p, PostId); }
        }
        Outcome(Response(OK, PostBody(p)), st.(posts := st.posts + [p]))
  }

  // ------------------------------------------------------------ list posts

  /** Dates never increase along `ps`. */
  predicate NewestFirst(ps: seq<Post>)
  {
    forall i, j :: 0 <= i < j < |ps| ==> ps[i].date >= ps[j].date
  }

  function InsertByDate(p: Post, ps: seq<Post>): (r: seq<Post>)
    requires NewestFirst(ps)
    ensures NewestFirst(r)
    ensures multiset(r) == multiset(ps) + multiset{p}
    ensures |r| > 0 && (r[0] == p || (|ps| > 0 && r[0] == ps[0]))
    decreases |ps|
  {
    if |ps| == 0 || p.date >= ps[0].date then
      [p] + ps
    else
      var rest := InsertByDate(p, ps[1..]);
      assert ps == [ps[0]] + ps[1..];
      assert forall j :: 0 < j < |[ps[0]] + rest| ==> ([ps[0]] + rest)[j] == rest[j - 1];
      [ps[0]] + rest
  }

  /** The order `sort({ date: -1 })` returns: newest first. Posts with equal
      dates may come in any order, so only the ordering and the contents are
      promised. */
  function SortNewestFirst(ps: seq<Post>): (r: seq<Post>)
    ensures NewestFirst(r)
    ensures multiset(r) == multiset(ps)
    decreases |ps|
  {
    if |ps| == 0 then []
    else
      assert ps == [ps[0]] + ps[1..];
      InsertByDate(ps[0], SortNewestFirst(ps[1..]))
  }

  /** GET api/posts: every post, newest first. */
  function GetPosts(st: Store): (r: Response)
    ensures r.status == OK && r.body.PostsBody?
    ensures NewestFirst(r.body.posts)
    ensures multiset(r.body.posts) == multiset(st.posts)
  {
    Response(OK, PostsBody(SortNewestFirst(st.posts)))
  }

  // ------------------------------------------------------------ fetch a post

  /** GET api/posts/:post_id. A malformed id is reported like a missing post. */
  function GetPost(st: Store, pid: IdParam): (r: Response)
    ensures r.status == OK || r == PostMissing
    ensures r.status == OK <==> pid.Castable? && Contains(st.posts, PostId, pid.id)
    ensures r.status == OK ==>
      pid.Castable? && r.body.PostBody? && r.body.post in st.posts && r.body.post.id == pid.id
  {
    match pid
    case Malformed(_) => PostMissing
    case Castable(id) =>
      var k := IndexOf(st.posts, PostId, id);
      if k == |st.posts| then PostMissing else Response(OK, PostBody(st.posts[k]))
  }

  // ------------------------------------------------------------ delete a post

  /** DELETE api/posts/:post_id: only the post's author may delete it. */
  function DeletePost(st: Store, requester: Id, pid: IdParam): (o: Outcome)
    ensures o.response.status in {OK, Unauthorized, NotFound}
    ensures o.response.status != OK ==> o.after == st
    ensures o.response.status == NotFound <==>
      pid.Malformed? || !Contains(st.posts, PostId, pid.id)
    ensures o.response.status == NotFound ==> o.response == PostMissing
    ensures o.response.status == Unauthorized <==>
      && pid.Castable? && Contains(st.posts, PostId, pid.id)
      && st.posts[IndexOf(st.posts, PostId, pid.id)].user != requester
    ensures o.response.status == OK ==>
      && pid.Castable?
      && var k := IndexOf(st.posts, PostId, pid.id);
         && k < |st.posts| && st.posts[k].user == requester
         && o.after == st.(posts := RemoveAt(st.posts, k))
         && o.response.body == Message("Post " + pid.id + " Deleted")
    ensures Valid(st) && o.response.status == OK ==>
      o.after.posts == Without(st.posts, PostId, pid.id) && Valid(o.after)
  {
    match pid
    case Malformed(_) => Outcome(PostMissing, st)
    case Castable(id) =>
      var k := IndexOf(st.posts, PostId, id);
      if k == |st.posts| then Outcome(PostMissing, st)
      else if st.posts[k].user != requester then
        Outcome(Response(Unauthorized, Message("User is not authorized to delete this post")), st)
      else
        assert Valid(st) ==> RemoveAt(st.posts, k) == Without(st.posts, PostId, id)
                             && Distinct(RemoveAt(st.posts, k), PostId) by {
          if Valid(st) {
            RemoveUniqueIsWithout(st.posts, PostId, id);
            DistinctRemoveAt(st.posts, k, PostId);
          }
        }
        Outcome(Response(OK, Message("Post " + id + " Deleted")), st.(posts := RemoveAt(st.posts, k)))
  }

  // ------------------------------------------------------------ like toggle

  predicate LikedBy(likes: seq<Like>, u: Id)
  {
    Contains(likes, LikeUser, u)
  }

  /** The like toggle: when `u` has liked, every like of `u` goes and the
      others stay in their order; otherwise one like of `u` is put in front. */
  function Toggle(likes: seq<Like>, u: Id): (r: seq<Like>)
    ensures LikedBy(r, u) <==> !LikedBy(likes, u)
    ensures LikedBy(likes, u) ==>
      && Subsequence(r, likes)
      && forall l: Like :: l.user != u ==> multiset(r)[l] == multiset(likes)[l]
    ensures !LikedBy(likes, u) ==> r == [Like(u)] + likes
  {
    if LikedBy(likes, u) then
      WithoutCounts(likes, LikeUser, u);
      Without(likes, LikeUser, u)
    else
      assert LikeUser(([Like(u)] + likes)[0]) == u;
      [Like(u)] + likes
  }

  /** Liking and then unliking a post one had not liked restores its likes. */
  lemma ToggleTwice(likes: seq<Like>, u: Id)
    requires !LikedBy(likes, u)
    ensures Toggle(Toggle(likes, u), u) == likes
  {
    WithoutCons(Like(u), likes, LikeUser, u);
    WithoutNoMatch(likes, LikeUser, u);
  }

  /** PUT api/posts/like/:id. The catch has no branch for malformed ids, and a
      missing post is dereferenced as null, so both answer 500. */
  function ToggleLike(st: Store, requester: Id, pid: IdParam): (o: Outcome)
    ensures pid.Malformed? || !Contains(st.posts, PostId, pid.id) ==> o == Failed(st)
    ensures pid.Castable? && Contains(st.posts, PostId, pid.id) ==>
      var k := IndexOf(st.posts, PostId, pid.id);
      var likes := Toggle(st.posts[k].likes, requester);
      && o.response == Response(OK, LikesBody(likes))
      && o.after == st.(posts := st.posts[k := st.posts[k].(likes := likes)])
    ensures Valid(st) ==> Valid(o.after)
  {
    match pid
    case Malformed(_) => Failed(st)
    case Castable(id) =>
      var k := IndexOf(st.posts, PostId, id);
      if k == |st.posts| then Failed(st)
      else
        var post := st.posts[k].(likes := Toggle(st.posts[k].likes, requester));
        assert Valid(st) ==> Distinct(st.posts[k := post], PostId) by {
          if Valid(st) { DistinctUpdate(st.posts, k, post, PostId); }
        }
        Outcome(Response(OK, LikesBody(post.likes)), st.(posts := st.posts[k := post]))
  }

  /** Toggling twice on a post the requester had not liked gives back the
      store it started from. */
  lemma ToggleLikeTwice(st: Store, requester: Id, id: Id)
    requires Contains(st.posts, PostId, id)
    requires !LikedBy(st.posts[IndexOf(st.posts, PostId, id)].likes, requester)
    ensures ToggleLike(ToggleLike(st, requester, Castable(id)).after, requester, Castable(id)).after == st
  {
    var k := IndexOf(st.posts, PostId, id);
    var p := st.posts[k];
    var once := Toggle(p.likes, requester);
    var mid := ToggleLike(st, requester, Castable(id)).after;
    assert mid.posts == st.posts[k := p.(likes := once)];
    IndexOfUpdate(st.posts, k, p.(likes := once), PostId, id);
    ToggleTwice(p.likes, requester);
    var fin := ToggleLike(mid, requester, Castable(id)).after;
    assert fin.posts == mid.posts[k := p];
    assert st.posts[k := p] == st.posts;
  }

  // ------------------------------------------------------------ comments

  /** POST api/posts/comment/:post_id. The comment object is built from the
      requester's user record before the post is checked, so a missing user
      is a 500 even when the post is missing too. `newCommentId` is the `_id`
      Mongoose gives the new sub-document. */
  function AddComment(st: Store, requester: Id, pid: IdParam, text: string, newCommentId: Id, now: int): (o: Outcome)
    ensures text == "" ==>
      o == Outcome(Response(BadRequest, Errors([FieldError("text", "Comment text is required")])), st)
    ensures text != "" && pid.Malformed? ==> o == Outcome(PostMissing, st)
    ensures text != "" && pid.Castable? && FindUser(st.users, requester).None? ==> o == Failed(st)
    ensures (text != "" && pid.Castable? && FindUser(st.users, requester).Some?
             && !Contains(st.posts, PostId, pid.id)) ==> o == Outcome(PostMissing, st)
    ensures o.response.status == OK <==>
      text != "" && pid.Castable? && FindUser(st.users, requester).Some? && Contains(st.posts, PostId, pid.id)
    ensures o.response.status == OK ==>
      && pid.Castable? && o.response.body.CommentsBody?
      && var k := IndexOf(st.posts, PostId, pid.id);
         var u := FindUser(st.users, requester).value;
         var cs := o.response.body.comments;
         && k < |st.posts|
         && |cs| == |st.posts[k].comments| + 1
         && cs[1..] == st.posts[k].comments
         && cs[0] == Comment(newCommentId, requester, text, u.name, u.avatar, now)
         && o.after == st.(posts := st.posts[k := st.posts[k].(comments := cs)])
    ensures Valid(st) ==> Valid(o.after)
  {
    if text == "" then
      Outcome(Response(BadRequest, Errors([FieldError("text", "Comment text is required")])), st)
    else
      match pid
      case Malformed(_) => Outcome(PostMissing, st)
      case Castable(id) =>
        match FindUser(st.users, requester)
        case None => Failed(st)
        case Some(u) =>
          var k := IndexOf(st.posts, PostId, id);
          if k == |st.posts| then Outcome(PostMissing, st)
          else
            var c := Comment(newCommentId, requester, text, u.name, u.avatar, now);
            var post := st.posts[k].(comments := [c] + st.posts[k].comments);
            assert Valid(st) ==> Distinct(st.posts[k := post], PostId) by {
              if Valid(st) { DistinctUpdate(st.posts, k, post, PostId); }
            }
            Outcome(Response(OK, CommentsBody(post.comments)), st.(posts := st.posts[k := post]))
  }

  /** DELETE api/posts/comment/:post_id/:comment_id as the source writes it:
      the comment is looked up by id and its author checked, but the entry
      spliced out is the first comment whose author is the requester. */
  function DeleteCommentAsWritten(st: Store, requester: Id, pid: IdParam, commentId: Id): (o: Outcome)
    ensures o.response.status in {OK, Unauthorized, NotFound}
    ensures o.response.status != OK ==> o.after == st
    ensures pid.Malformed? || !Contains(st.posts, PostId, pid.id) ==> o == Outcome(PostMissing, st)
    ensures (pid.Castable? && Contains(st.posts, PostId, pid.id)
             && !Contains(st.posts[IndexOf(st.posts, PostId, pid.id)].comments, CommentId, commentId)) ==>
      o == Outcome(Response(NotFound, Message("Comment not found")), st)
    ensures o.response.status == Unauthorized <==>
      && pid.Castable? && Contains(st.posts, PostId, pid.id)
      && var cs := st.posts[IndexOf(st.posts, PostId, pid.id)].comments;
         Contains(cs, CommentId, commentId) && cs[IndexOf(cs, CommentId, commentId)].user != requester
    ensures o.response.status == Unauthorized ==>
      o.response.body == Message("Unauthorized to delete this comment")
    ensures o.response.status == OK <==>
      && pid.Castable? && Contains(st.posts, PostId, pid.id)
      && var cs := st.posts[IndexOf(st.posts, PostId, pid.id)].comments;
         Contains(cs, CommentId, commentId) && cs[IndexOf(cs, CommentId, commentId)].user == requester
    ensures o.response.status == OK ==>
      && pid.Castable?
      && var k := IndexOf(st.posts, PostId, pid.id);
         && k < |st.posts|
         && var cs := st.posts[k].comments;
            var found := IndexOf(cs, CommentId, commentId);
            var removed := IndexOf(cs, CommentUser, requester);
            && found < |cs| && cs[found].user == requester
            && removed < |cs| && removed <= found
            && o.response.body == CommentsBody(RemoveAt(cs, removed))
            && o.after == st.(posts := st.posts[k := st.posts[k].(comments := RemoveAt(cs, removed))])
    ensures Valid(st) ==> Valid(o.after)
  {
    match pid
    case Malformed(_) => Outcome(PostMissing, st)
    case Castable(id) =>
      var k := IndexOf(st.posts, PostId, id);
      if k == |st.posts| then Outcome(PostMissing, st)
      else
        var cs := st.posts[k].comments;
        var found := IndexOf(cs, CommentId, commentId);
        if found == |cs| then Outcome(Response(NotFound, Message("Comment not found")), st)
        else if cs[found].user != requester then
          Outcome(Response(Unauthorized, Message("Unauthorized to delete this comment")), st)
        else
          var removed := IndexOf(cs, CommentUser, requester);
          var post := st.posts[k].(comments := RemoveAt(cs, removed));
          assert Valid(st) ==> Distinct(st.posts[k := post], PostId) by {
            if Valid(st) { DistinctUpdate(st.posts, k, post, PostId); }
          }
          Outcome(Response(OK, CommentsBody(post.comments)), st.(posts := st.posts[k := post]))
  }

  /** The requester owns comments "a" and "b" and asks to delete "b": the
      handler as written deletes "a" and keeps "b". */
  lemma AsWrittenDeletesOtherComment()
    ensures
      var a := Comment("a", "u", "first", "U", "", 1);
      var b := Comment("b", "u", "second", "U", "", 2);
      var st := Store([], [], [Post("p", "u", "hello", "U", "", [], [a, b], 0)]);
      var o := DeleteCommentAsWritten(st, "u", Castable("p"), "b");
      o.response.status == OK && o.after.posts[0].comments == [b]
  {
    var a := Comment("a", "u", "first", "U", "", 1);
    var b := Comment("b", "u", "second", "U", "", 2);
    var cs := [a, b];
    assert IndexOf(cs, CommentId, "b") == 1 by {
      assert cs[1..] == [b];
    }
    assert IndexOf(cs, CommentUser, "u") == 0;
    var post := Post("p", "u", "hello", "U", "", [], cs, 0);
    var st := Store([], [], [post]);
    assert IndexOf(st.posts, PostId, "p") == 0;
    assert RemoveAt(cs, 0) == [b];
    assert DeleteCommentAsWritten(st, "u", Castable("p"), "b").after == st.(posts := [post.(comments := [b])]);
  }

  /** DELETE api/posts/comment/:post_id/:comment_id as intended: the comment
      removed is the one whose id was asked for, and only its author may
      remove it. */
  function DeleteComment(st: Store, requester: Id, pid: IdParam, commentId: Id): (o: Outcome)
    ensures o.response.status in {OK, Unauthorized, NotFound}
    ensures o.response.status != OK ==> o.after == st
    ensures pid.Malformed? || !Contains(st.posts, PostId, pid.id) ==> o == Outcome(PostMissing, st)
    ensures (pid.Castable? && Contains(st.posts, PostId, pid.id)
             && !Contains(st.posts[IndexOf(st.posts, PostId, pid.id)].comments, CommentId, commentId)) ==>
      o == Outcome(Response(NotFound, Message("Comment not found")), st)
    ensures o.response.status == Unauthorized <==>
      && pid.Castable? && Contains(st.posts, PostId, pid.id)
      && var cs := st.posts[IndexOf(st.posts, PostId, pid.id)].comments;
         Contains(cs, CommentId, commentId) && cs[IndexOf(cs, CommentId, commentId)].user != requester
    ensures o.response.status == OK <==>
      && pid.Castable? && Contains(st.posts, PostId, pid.id)
      && var cs := st.posts[IndexOf(st.posts, PostId, pid.id)].comments;
         Contains(cs, CommentId, commentId) && cs[IndexOf(cs, CommentId, commentId)].user == requester
    ensures o.response.status == Unauthorized ==>
      o.response.body == Message("Unauthorized to delete this comment")
    ensures o.response.status == OK ==>
      && pid.Castable?
      && var k := IndexOf(st.posts, PostId, pid.id);
         && k < |st.posts|
         && var cs := st.posts[k].comments;
            var found := IndexOf(cs, CommentId, commentId);
            && found < |cs| && cs[found].user == requester
            && o.response.body == CommentsBody(RemoveAt(cs, found))
            && o.after == st.(posts := st.posts[k := st.posts[k].(comments := RemoveAt(cs, found))])
            && (Distinct(cs, CommentId) ==> !Contains(RemoveAt(cs, found), CommentId, commentId))
    ensures Valid(st) ==> Valid(o.after)
  {
    match pid
    case Malformed(_) => Outcome(PostMissing, st)
    case Castable(id) =>
      var k := IndexOf(st.posts, PostId, id);
      if k == |st.posts| then Outcome(PostMissing, st)
      else
        var cs := st.posts[k].comments;
        var found := IndexOf(cs, CommentId, commentId);
        if found == |cs| then Outcome(Response(NotFound, Message("Comment not found")), st)
        else if cs[found].user != requester then
          Outcome(Response(Unauthorized, Message("Unauthorized to delete this comment")), st)
        else
          var post := st.posts[k].(comments := RemoveAt(cs, found));
          assert Distinct(cs, CommentId) ==> !Contains(RemoveAt(cs, found), CommentId, commentId) by {
            if Distinct(cs, CommentId) { RemoveUniqueIsWithout(cs, CommentId, commentId); }
          }
          assert Valid(st) ==> Distinct(st.posts[k := post], PostId) by {
            if Valid(st) { DistinctUpdate(st.posts, k, post, PostId); }
          }
          Outcome(Response(OK, CommentsBody(post.comments)), st.(posts := st.posts[k := post]))
  }

  // ------------------------------------------------------------ round trips

  /** Deleting a post right after creating it restores the store. */
  lemma CreateThenDelete(st: Store, requester: Id, text: string, newId: Id, now: int)
    requires !Contains(st.posts, PostId, newId)
    requires CreatePost(st, requester, text, newId, now).response.status == OK
    ensures DeletePost(CreatePost(st, requester, text, newId, now).after, requester, Castable(newId)).after == st
  {
    var mid := CreatePost(st, requester, text, newId, now).after;
    IndexOfAppend(st.posts, mid.posts[|st.posts|], PostId);
    assert RemoveAt(mid.posts, |st.posts|) == st.posts;
  }

  /** Another user cannot delete a fresh post; its author can, after which
      it can no longer be fetched. */
  lemma OnlyAuthorDeletes(st: Store, author: Id, other: Id, text: string, newId: Id, now: int)
    requires !Contains(st.posts, PostId, newId)
    requires other != author
    requires CreatePost(st, author, text, newId, now).response.status == OK
    ensures
      var mid := CreatePost(st, author, text, newId, now).after;
      && DeletePost(mid, other, Castable(newId)).response.status == Unauthorized
      && DeletePost(mid, author, Castable(newId)).response.status == OK
      && GetPost(DeletePost(mid, author, Castable(newId)).after, Castable(newId)) == PostMissing
  {
    var mid := CreatePost(st, author, text, newId, now).after;
    IndexOfAppend(st.posts, mid.posts[|st.posts|], PostId);
    CreateThenDelete(st, author, text, newId, now);
  }

  /** Deleting (as intended) a comment right after adding it restores the store. */
  lemma AddThenDeleteComment(st: Store, requester: Id, id: Id, text: string, newCommentId: Id, now: int)
    requires AddComment(st, requester, Castable(id), text, newCommentId, now).response.status == OK
    ensures DeleteComment(AddComment(st, requester, Castable(id), text, newCommentId, now).after,
                          requester, Castable(id), newCommentId).after == st
  {
    var k := IndexOf(st.posts, PostId, id);
    var mid := AddComment(st, requester, Castable(id), text, newCommentId, now).after;
    var p := st.posts[k];
    var p1 := mid.posts[k];
    IndexOfUpdate(st.posts, k, p1, PostId, id);
    assert IndexOf(p1.comments, CommentId, newCommentId) == 0;
    assert RemoveAt(p1.comments, 0) == p.comments;
    assert p1.(comments := p.comments) == p;
    assert st.posts[k := p1][k := p] == st.posts;
  }
}
