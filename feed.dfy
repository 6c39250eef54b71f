/**
 * The post list of the board and the pure transitions the page's handlers
 * apply to it: each handler builds a new list from the old one (a `map` that
 * replaces the post(s) with the given id, or a prepend), and the feed shown
 * is the list filtered by the selected sub-community.
 *
 * The clock value `Date.now()` that the handlers use as a fresh id is the
 * parameter `now`; the current nickname is the parameter `author`.
 */
module Feed {
  import opened CommentTree
  import Text

  datatype Option<T> = None | Some(value: T)

  /** A post; `image` is an optional data URL or link. */
  datatype Post = Post(
    id: int,
    sub: string,
    title: string,
    content: string,
    image: Option<string>,
    author: string,
    likes: int,
    isLiked: bool,
    comments: seq<Comment>,
    time: string)

  /** The sub-community name that selects every post. */
  const All: string := "전체"

  /** The time label stamped on everything created in this session. */
  const JustNow: string := "방금 전"

  /** The list the page starts with. */
  const Seed: seq<Post> := [
    Post(1, "판교맛집", "유스페이스 라멘집 진짜 대박임", "오늘 가봤는데 국물이 끝내줘요.",
         Some("https://images.unsplash.com/photo-1569718212165-3a8278d5f624?w=800"),
         "졸린 개발자 123", 120, false,
         [Comment(101, "라멘매니아", "거기 차슈 추가 필수인거 아시죠?", "3분 전", 5, false, [])],
         "5분 전")]

  /** Every post's like count is consistent with its flag, and so is every comment's. */
  ghost predicate PostsConsistent(posts: seq<Post>)
  {
    forall i :: 0 <= i < |posts| ==>
      posts[i].likes >= (if posts[i].isLiked then 1 else 0) && LikesConsistent(posts[i].comments)
  }

  /** The comment ids of every post are unique across its whole tree. */
  ghost predicate CommentIdsUnique(posts: seq<Post>)
  {
    forall i :: 0 <= i < |posts| ==> UniqueIds(posts[i].comments)
  }

  // ---------------------------------------------------------------------
  // toggleLike
  // ---------------------------------------------------------------------

  function TogglePost(p: Post): Post
  {
    p.(likes := if p.isLiked then p.likes - 1 else p.likes + 1, isLiked := !p.isLiked)
  }

  /**
   * `toggleLike`: the post(s) with id `postId` flip their like and move their
   * count by one in that direction; every other post is left as it was.
   */
  function TogglePostLike(posts: seq<Post>, postId: int): (r: seq<Post>)
    ensures |r| == |posts|
    ensures forall i :: 0 <= i < |posts| && posts[i].id != postId ==> r[i] == posts[i]
    ensures forall i :: 0 <= i < |posts| && posts[i].id == postId ==>
      r[i].isLiked == !posts[i].isLiked &&
      r[i].likes == (if r[i].isLiked then posts[i].likes + 1 else posts[i].likes - 1) &&
      r[i] == posts[i].(likes := r[i].likes, isLiked := r[i].isLiked)
  {
    seq(|posts|, i requires 0 <= i < |posts| =>
      if posts[i].id == postId then TogglePost(posts[i]) else posts[i])
  }

  /** Liking a post twice leaves the list as it was. */
  lemma TogglePostLikeTwice(posts: seq<Post>, postId: int)
    ensures TogglePostLike(TogglePostLike(posts, postId), postId) == posts
  {
  }

  lemma TogglePostLikeConsistent(posts: seq<Post>, postId: int)
    requires PostsConsistent(posts)
    ensures PostsConsistent(TogglePostLike(posts, postId))
  {
  }

  // ---------------------------------------------------------------------
  // toggleCommentLike
  // ---------------------------------------------------------------------

  /**
   * `toggleCommentLike`: the comment forest of the post(s) with id `postId`
   * goes through `updateLikes`; nothing else in the list changes.
   */
  function ToggleCommentLike(posts: seq<Post>, postId: int, commentId: int): (r: seq<Post>)
    ensures |r| == |posts|
    ensures forall i :: 0 <= i < |posts| ==>
      r[i] == posts[i].(comments := r[i].comments) &&
      r[i].comments == if posts[i].id == postId then UpdateLikes(posts[i].comments, commentId)
                       else posts[i].comments
  {
    seq(|posts|, i requires 0 <= i < |posts| =>
      if posts[i].id == postId then posts[i].(comments := UpdateLikes(posts[i].comments, commentId))
      else posts[i])
  }

  /** Liking the same comment twice leaves the list as it was. */
  lemma ToggleCommentLikeTwice(posts: seq<Post>, postId: int, commentId: int)
    ensures ToggleCommentLike(ToggleCommentLike(posts, postId, commentId), postId, commentId) == posts
  {
    var once := ToggleCommentLike(posts, postId, commentId);
    var twice := ToggleCommentLike(once, postId, commentId);
    forall i | 0 <= i < |posts| ensures twice[i] == posts[i] {
      UpdateLikesTwice(posts[i].comments, commentId);
    }
  }

  /** A comment id that occurs in no post's forest leaves the list as it was. */
  lemma ToggleCommentLikeAbsent(posts: seq<Post>, postId: int, commentId: int)
    requires forall i :: 0 <= i < |posts| && posts[i].id == postId ==> commentId !in ForestIds(posts[i].comments)
    ensures ToggleCommentLike(posts, postId, commentId) == posts
  {
    var r := ToggleCommentLike(posts, postId, commentId);
    forall i | 0 <= i < |posts| ensures r[i] == posts[i] {
      if posts[i].id == postId {
        UpdateLikesAbsent(posts[i].comments, commentId);
      }
    }
  }

  /** Liking a comment keeps every post's comment ids unique. */
  lemma ToggleCommentLikeKeepsUnique(posts: seq<Post>, postId: int, commentId: int)
    requires CommentIdsUnique(posts)
    ensures CommentIdsUnique(ToggleCommentLike(posts, postId, commentId))
  {
    forall i | 0 <= i < |posts| ensures UniqueIds(UpdateLikes(posts[i].comments, commentId)) {
      UpdateLikesKeepsUnique(posts[i].comments, commentId);
    }
  }

  lemma ToggleCommentLikeConsistent(posts: seq<Post>, postId: int, commentId: int)
    requires PostsConsistent(posts)
    ensures PostsConsistent(ToggleCommentLike(posts, postId, commentId))
  {
    forall i | 0 <= i < |posts| ensures LikesConsistent(UpdateLikes(posts[i].comments, commentId)) {
      UpdateLikesConsistent(posts[i].comments, commentId);
    }
  }

  // ---------------------------------------------------------------------
  // handlePostSubmit
  // ---------------------------------------------------------------------

  /**
   * `handlePostSubmit`: None (where the page shows an alert) or the list
   * with the new post first.
   */
  function SubmitPost(posts: seq<Post>, title: string, content: string, sub: string,
                      image: Option<string>, author: string, now: int): Option<seq<Post>>
  {
    if title == [] || content == [] then None
    else Some([Post(now, Text.Trim(sub), title, content, image, author, 0, false, [], JustNow)] + posts)
  }

  /**
   * What `handlePostSubmit` promises: refused exactly when the title or the
   * content is empty; otherwise the old list follows the new post, which has
   * id `now`, the trimmed sub-community name, no likes and no comments.
   */
  lemma SubmitPostSpec(posts: seq<Post>, title: string, content: string, sub: string,
                       image: Option<string>, author: string, now: int)
    ensures var r := SubmitPost(posts, title, content, sub, image, author, now);
      (r.None? <==> (title == [] || content == [])) &&
      (r.Some? ==>
        var ps := r.value;
        |ps| == |posts| + 1 && ps[1..] == posts &&
        ps[0].id == now && ps[0].sub == Text.Trim(sub) &&
        ps[0].title == title && ps[0].content == content && ps[0].image == image &&
        ps[0].author == author && ps[0].time == JustNow &&
        ps[0].likes == 0 && !ps[0].isLiked && ps[0].comments == [])
  {
  }

  /**
   * The new post heads the feed of its own sub-community, whatever white
   * space surrounded the name it was submitted with, and the feed of all.
   */
  lemma SubmitPostVisible(posts: seq<Post>, title: string, content: string, sub: string,
                          image: Option<string>, author: string, now: int, activeSub: string)
    requires title != [] && content != []
    requires activeSub == All || activeSub == Text.Trim(sub)
    ensures var ps := SubmitPost(posts, title, content, sub, image, author, now).value;
      Filter(ps, activeSub) != [] && Filter(ps, activeSub)[0] == ps[0]
  {
    var ps := SubmitPost(posts, title, content, sub, image, author, now).value;
    if activeSub != All {
      OnSubAppend([ps[0]], posts, activeSub);
      assert ps == [ps[0]] + posts;
    }
  }

  lemma SubmitPostConsistent(posts: seq<Post>, title: string, content: string, sub: string,
                             image: Option<string>, author: string, now: int)
    requires PostsConsistent(posts) && title != [] && content != []
    ensures PostsConsistent(SubmitPost(posts, title, content, sub, image, author, now).value)
  {
    var ps := SubmitPost(posts, title, content, sub, image, author, now).value;
    forall i | 1 <= i < |ps| ensures ps[i] == posts[i - 1] {
    }
  }

  // ---------------------------------------------------------------------
  // addComment
  // ---------------------------------------------------------------------

  /**
   * `addComment`: nothing happens for an empty input; otherwise a new comment
   * (id `now`, no likes, no replies) is appended after the last root comment
   * of the post(s) with id `postId`, and no other post changes.
   */
  function AddComment(posts: seq<Post>, postId: int, input: string, author: string, now: int): (r: seq<Post>)
    ensures input == [] ==> r == posts
    ensures |r| == |posts|
    ensures forall i :: 0 <= i < |posts| ==>
      r[i] == posts[i].(comments := r[i].comments) &&
      (input == [] || posts[i].id != postId ==> r[i].comments == posts[i].comments)
    ensures input != [] ==> forall i :: 0 <= i < |posts| && posts[i].id == postId ==>
      var old_, new_ := posts[i].comments, r[i].comments;
      |new_| == |old_| + 1 && new_[..|old_|] == old_ &&
      new_[|old_|] == Comment(now, author, input, JustNow, 0, false, [])
  {
    if input == [] then posts
    else
      var added := NewComment(now, author, input, JustNow);
      seq(|posts|, i requires 0 <= i < |posts| =>
        if posts[i].id == postId then posts[i].(comments := posts[i].comments + [added])
        else posts[i])
  }

  /** A new root comment adds exactly one comment to its post's tree. */
  lemma AddCommentCount(posts: seq<Post>, postId: int, input: string, author: string, now: int, i: nat)
    requires i < |posts| && posts[i].id == postId && input != []
    ensures CountForest(AddComment(posts, postId, input, author, now)[i].comments)
            == CountForest(posts[i].comments) + 1
  {
    CountAppend(posts[i].comments, NewComment(now, author, input, JustNow));
  }

  lemma AddCommentConsistent(posts: seq<Post>, postId: int, input: string, author: string, now: int)
    requires PostsConsistent(posts)
    ensures PostsConsistent(AddComment(posts, postId, input, author, now))
  {
    var r := AddComment(posts, postId, input, author, now);
    forall i | 0 <= i < |posts| ensures LikesConsistent(r[i].comments) {
      if input != [] && posts[i].id == postId {
        InsertReplyConsistentRoot(posts[i].comments, NewComment(now, author, input, JustNow));
      }
    }
  }

  /**
   * A root comment keeps every post's comment ids unique when its id `now`
   * is new to the forests it may be added to.
   */
  lemma AddCommentKeepsUnique(posts: seq<Post>, postId: int, input: string, author: string, now: int)
    requires CommentIdsUnique(posts)
    requires forall i :: 0 <= i < |posts| && posts[i].id == postId ==> now !in ForestIds(posts[i].comments)
    ensures CommentIdsUnique(AddComment(posts, postId, input, author, now))
  {
    var r := AddComment(posts, postId, input, author, now);
    var added := NewComment(now, author, input, JustNow);
    assert NodeIds(added) == {now};
    forall i | 0 <= i < |posts| ensures UniqueIds(r[i].comments) {
      if input != [] && posts[i].id == postId {
        UniqueAppend(posts[i].comments, added);
      }
    }
  }

  /** Appending a consistent root keeps a forest consistent. */
  lemma InsertReplyConsistentRoot(cs: seq<Comment>, c: Comment)
    requires LikesConsistent(cs) && NodeConsistent(c)
    ensures LikesConsistent(cs + [c])
  {
    var rs := cs + [c];
    forall k | 0 <= k < |rs| ensures NodeConsistent(rs[k]) {
      if k < |cs| {
        assert rs[k] == cs[k];
      }
    }
  }

  // ---------------------------------------------------------------------
  // addReply
  // ---------------------------------------------------------------------

  /**
   * `addReply`: nothing happens for an empty input; otherwise the comment
   * forest of the post(s) with id `postId` goes through `insertReply` with a
   * new reply (id `now`, no likes, no replies), and no other post changes.
   */
  function AddReply(posts: seq<Post>, postId: int, parentId: int, input: string, author: string,
                    now: int): (r: seq<Post>)
    ensures input == [] ==> r == posts
    ensures |r| == |posts|
    ensures forall i :: 0 <= i < |posts| ==>
      r[i] == posts[i].(comments := r[i].comments) &&
      r[i].comments == if input != [] && posts[i].id == postId
                       then InsertReply(posts[i].comments, parentId, NewComment(now, author, input, JustNow))
                       else posts[i].comments
  {
    if input == [] then posts
    else
      var reply := NewComment(now, author, input, JustNow);
      seq(|posts|, i requires 0 <= i < |posts| =>
        if posts[i].id == postId then posts[i].(comments := InsertReply(posts[i].comments, parentId, reply))
        else posts[i])
  }

  /**
   * In a post whose comment ids are unique and contain `parentId` (at path
   * `p`), the parent's last reply is the new one, after all its old replies,
   * with id `now`, the input as content, no likes and no replies; the parent's
   * other fields are unchanged and the tree holds exactly one comment more.
   */
  lemma AddReplyUnique(posts: seq<Post>, postId: int, parentId: int, input: string, author: string,
                       now: int, i: nat, p: seq<nat>)
    requires i < |posts| && posts[i].id == postId && input != []
    requires UniqueIds(posts[i].comments) && ValidPath(posts[i].comments, p)
    requires At(posts[i].comments, p).id == parentId
    ensures var before, after := posts[i].comments, AddReply(posts, postId, parentId, input, author, now)[i].comments;
      CountForest(after) == CountForest(before) + 1 &&
      ValidPath(after, p) &&
      At(after, p) == At(before, p).(replies := At(before, p).replies + [Comment(now, author, input, JustNow, 0, false, [])])
  {
    InsertReplyUnique(posts[i].comments, parentId, NewComment(now, author, input, JustNow), p);
  }

  /** A parent id that occurs in no forest of the posts with id `postId` leaves the list as it was. */
  lemma AddReplyAbsent(posts: seq<Post>, postId: int, parentId: int, input: string, author: string, now: int)
    requires forall i :: 0 <= i < |posts| && posts[i].id == postId ==> parentId !in ForestIds(posts[i].comments)
    ensures AddReply(posts, postId, parentId, input, author, now) == posts
  {
    var r := AddReply(posts, postId, parentId, input, author, now);
    forall i | 0 <= i < |posts| ensures r[i] == posts[i] {
      if posts[i].id == postId {
        InsertReplyAbsent(posts[i].comments, parentId, NewComment(now, author, input, JustNow));
      }
    }
  }

  /**
   * A reply keeps every post's comment ids unique when its id `now` is new
   * to the forests it may be added to.
   */
  lemma AddReplyKeepsUnique(posts: seq<Post>, postId: int, parentId: int, input: string, author: string, now: int)
    requires CommentIdsUnique(posts)
    requires forall i :: 0 <= i < |posts| && posts[i].id == postId ==> now !in ForestIds(posts[i].comments)
    ensures CommentIdsUnique(AddReply(posts, postId, parentId, input, author, now))
  {
    var r := AddReply(posts, postId, parentId, input, author, now);
    var reply := NewComment(now, author, input, JustNow);
    assert NodeIds(reply) == {now};
    forall i | 0 <= i < |posts| ensures UniqueIds(r[i].comments) {
      if input != [] && posts[i].id == postId {
        InsertReplyKeepsUnique(posts[i].comments, parentId, reply);
      }
    }
  }

  lemma AddReplyConsistent(posts: seq<Post>, postId: int, parentId: int, input: string, author: string, now: int)
    requires PostsConsistent(posts)
    ensures PostsConsistent(AddReply(posts, postId, parentId, input, author, now))
  {
    var r := AddReply(posts, postId, parentId, input, author, now);
    forall i | 0 <= i < |posts| ensures LikesConsistent(r[i].comments) {
      if input != [] && posts[i].id == postId {
        InsertReplyConsistent(posts[i].comments, parentId, NewComment(now, author, input, JustNow));
      }
    }
  }

  // ---------------------------------------------------------------------
  // filteredPosts
  // ---------------------------------------------------------------------

  /**
   * `filteredPosts`: every post for "전체"; for any other name, exactly the
   * posts of that sub-community (in their original order, `OnSubAppend`).
   */
  function Filter(posts: seq<Post>, activeSub: string): (r: seq<Post>)
    ensures activeSub == All ==> r == posts
    ensures activeSub != All ==> forall x :: x in r <==> x in posts && x.sub == activeSub
  {
    if activeSub == All then posts
    else
      OnSubAllMembers(posts, activeSub);
      OnSub(posts, activeSub)
  }

  /** `posts.filter(post => post.sub === sub)`. */
  function OnSub(posts: seq<Post>, sub: string): (r: seq<Post>)
    ensures |r| <= |posts|
    ensures forall k :: 0 <= k < |r| ==> r[k].sub == sub && r[k] in posts
    decreases |posts|
  {
    if posts == [] then []
    else (if posts[0].sub == sub then [posts[0]] else []) + OnSub(posts[1..], sub)
  }

  /** A post is shown exactly when it is in the list and belongs to the sub-community. */
  lemma {:induction false} OnSubMembers(posts: seq<Post>, sub: string, x: Post)
    ensures x in OnSub(posts, sub) <==> x in posts && x.sub == sub
    decreases |posts|
  {
    if posts != [] {
      OnSubMembers(posts[1..], sub, x);
      assert posts == [posts[0]] + posts[1..];
    }
  }

  lemma OnSubAllMembers(posts: seq<Post>, sub: string)
    ensures forall x :: x in OnSub(posts, sub) <==> x in posts && x.sub == sub
  {
    forall x ensures x in OnSub(posts, sub) <==> x in posts && x.sub == sub {
      OnSubMembers(posts, sub, x);
    }
  }

  /** Filtering keeps the original order: it distributes over concatenation. */
  lemma {:induction false} OnSubAppend(a: seq<Post>, b: seq<Post>, sub: string)
    ensures OnSub(a + b, sub) == OnSub(a, sub) + OnSub(b, sub)
    decreases |a|
  {
    if a != [] {
      assert (a + b)[1..] == a[1..] + b;
      OnSubAppend(a[1..], b, sub);
    } else {
      assert a + b == b;
    }
  }

  /** The filtered feed is the list when every post belongs to the sub-community, and empty when none does. */
  lemma {:induction false} OnSubExtremes(posts: seq<Post>, sub: string)
    ensures (forall k :: 0 <= k < |posts| ==> posts[k].sub == sub) ==> OnSub(posts, sub) == posts
    ensures (forall k :: 0 <= k < |posts| ==> posts[k].sub != sub) ==> OnSub(posts, sub) == []
    decreases |posts|
  {
    if posts != [] {
      OnSubExtremes(posts[1..], sub);
      assert forall k :: 0 <= k < |posts[1..]| ==> posts[1..][k] == posts[k + 1];
    }
  }
}
