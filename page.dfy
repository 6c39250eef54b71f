/**
 * The state of the page component and its event handlers. Each React state
 * hook is a field; each handler replaces `posts` with the list the matching
 * transition of `Feed` builds, then clears the inputs it consumed. The
 * invariant kept by every handler is that every like count, of posts and of
 * comments at any depth, agrees with the viewer's like flag.
 */
module Page {
  import opened CommentTree
  import opened Feed

  /** The state hooks other than `posts`, as one value, to say what a handler leaves alone. */
  datatype Inputs = Inputs(
    currentUser: string,
    activeSub: string,
    inputTitle: string,
    inputContent: string,
    inputSub: string,
    selectedImage: Option<string>,
    commentInput: string,
    replyInput: string,
    activeReplyId: Option<int>)

  class Board {
    var currentUser: string
    var activeSub: string
    var posts: seq<Post>
    var inputTitle: string
    var inputContent: string
    var inputSub: string
    var selectedImage: Option<string>
    var commentInput: string
    var replyInput: string
    var activeReplyId: Option<int>

    ghost predicate Valid()
      reads this
    {
      PostsConsistent(posts)
    }

    ghost function State(): Inputs
      reads this
    {
      Inputs(currentUser, activeSub, inputTitle, inputContent, inputSub, selectedImage,
             commentInput, replyInput, activeReplyId)
    }

    /** The initial values of the state hooks. */
    constructor ()
      ensures Valid()
      ensures posts == Seed
      ensures State() == Inputs("", All, "", "", "자유", None, "", "", None)
    {
      currentUser := "";
      activeSub := All;
      posts := Seed;
      inputTitle := "";
      inputContent := "";
      inputSub := "자유";
      selectedImage := None;
      commentInput := "";
      replyInput := "";
      activeReplyId := None;
      assert LikesConsistent(Seed[0].comments) by {
        assert NodeConsistent(Seed[0].comments[0]);
      }
    }

    /** The feed that is rendered. */
    function FilteredPosts(): seq<Post>
      reads this
    {
      Filter(posts, activeSub)
    }

    /** `toggleLike`. */
    method ToggleLike(postId: int)
      requires Valid()
      modifies this
      ensures Valid()
      ensures posts == TogglePostLike(old(posts), postId)
      ensures State() == old(State())
    {
      TogglePostLikeConsistent(posts, postId);
      posts := TogglePostLike(posts, postId);
    }

    /** `toggleCommentLike`. */
    method ToggleCommentLike(postId: int, commentId: int)
      requires Valid()
      modifies this
      ensures Valid()
      ensures posts == Feed.ToggleCommentLike(old(posts), postId, commentId)
      ensures State() == old(State())
    {
      ToggleCommentLikeConsistent(posts, postId, commentId);
      posts := Feed.ToggleCommentLike(posts, postId, commentId);
    }

    /**
     * `handlePostSubmit`, with `now` for `Date.now()`. Returns false where the
     * page would show its alert, leaving everything as it was; otherwise the
     * new post is first and the title, content and image inputs are cleared
     * (the sub-community input keeps its value).
     */
    method HandlePostSubmit(now: int) returns (accepted: bool)
      requires Valid()
      modifies this
      ensures Valid()
      ensures accepted <==> (old(inputTitle) != [] && old(inputContent) != [])
      ensures !accepted ==> posts == old(posts) && State() == old(State())
      ensures accepted ==>
        posts == SubmitPost(old(posts), old(inputTitle), old(inputContent), old(inputSub),
                            old(selectedImage), old(currentUser), now).value &&
        State() == old(State()).(inputTitle := "", inputContent := "", selectedImage := None)
    {
      if inputTitle == [] || inputContent == [] {
        accepted := false;
        return;
      }
      SubmitPostConsistent(posts, inputTitle, inputContent, inputSub, selectedImage, currentUser, now);
      posts := SubmitPost(posts, inputTitle, inputContent, inputSub, selectedImage, currentUser, now).value;
      inputTitle := "";
      inputContent := "";
      selectedImage := None;
      accepted := true;
    }

    /** `addComment`, with `now` for `Date.now()`. */
    method AddComment(postId: int, now: int)
      requires Valid()
      modifies this
      ensures Valid()
      ensures old(commentInput) == [] ==> posts == old(posts) && State() == old(State())
      ensures old(commentInput) != [] ==>
        posts == Feed.AddComment(old(posts), postId, old(commentInput), old(currentUser), now) &&
        State() == old(State()).(commentInput := "")
    {
      if commentInput == [] {
        return;
      }
      AddCommentConsistent(posts, postId, commentInput, currentUser, now);
      posts := Feed.AddComment(posts, postId, commentInput, currentUser, now);
      commentInput := "";
    }

    /** `addReply`, with `now` for `Date.now()`; also closes the reply box. */
    method AddReply(postId: int, parentCommentId: int, now: int)
      requires Valid()
      modifies this
      ensures Valid()
      ensures old(replyInput) == [] ==> posts == old(posts) && State() == old(State())
      ensures old(replyInput) != [] ==>
        posts == Feed.AddReply(old(posts), postId, parentCommentId, old(replyInput), old(currentUser), now) &&
        State() == old(State()).(replyInput := "", activeReplyId := None)
    {
      if replyInput == [] {
        return;
      }
      AddReplyConsistent(posts, postId, parentCommentId, replyInput, currentUser, now);
      posts := Feed.AddReply(posts, postId, parentCommentId, replyInput, currentUser, now);
      replyInput := "";
      activeReplyId := None;
    }
  }
}
