/**
 * The comment/reply tree attached to every post of the board: a forest of
 * comments, each holding its replies, to any depth. The two tree walks of
 * the page component, the like toggle (`updateLikes`) and the reply
 * insertion (`insertReply`), are pure functions here: each rebuilds every
 * level with a `map` over the sequence and locates nodes by `id` alone.
 *
 * Both walks stop at a matching node: they change that node and do not
 * descend into its replies. A node is therefore "hit" by a walk for id `t`
 * when its id is `t` and no ancestor's id is `t` (`IsHit`); in a forest whose
 * ids are pairwise distinct (`UniqueIds`) that is simply the node with id `t`.
 */
module CommentTree {

  /** One comment or reply; a reply is a comment stored in another one's `replies`. */
  datatype Comment = Comment(
    id: int,
    author: string,
    content: string,
    time: string,
    likes: int,
    isLiked: bool,
    replies: seq<Comment>)

  /** A freshly written comment: no likes, not liked, no replies. */
  function NewComment(id: int, author: string, content: string, time: string): Comment
  {
    Comment(id, author, content, time, 0, false, [])
  }

  /** The like count after the viewer flips their like on `c`. */
  function ToggledLikes(c: Comment): int
  {
    if c.isLiked then c.likes - 1 else c.likes + 1
  }

  /** The matched node of `updateLikes`: like flag flipped, count moved by one. */
  function Toggle(c: Comment): Comment
  {
    c.(likes := ToggledLikes(c), isLiked := !c.isLiked)
  }

  // ---------------------------------------------------------------------
  // The two tree walks
  // ---------------------------------------------------------------------

  /** `updateLikes`: toggle the like of the comment(s) whose id is `target`. */
  function UpdateLikes(cs: seq<Comment>, target: int): (r: seq<Comment>)
    ensures |r| == |cs|
    ensures forall i :: 0 <= i < |cs| ==> r[i].id == cs[i].id
    decreases cs
  {
    seq(|cs|, i requires 0 <= i < |cs| => UpdateLike(cs[i], target))
  }

  /** The callback of the `map` in `updateLikes`, applied to one comment. */
  function UpdateLike(c: Comment, target: int): Comment
    decreases c
  {
    if c.id == target then Toggle(c) else c.(replies := UpdateLikes(c.replies, target))
  }

  /** `insertReply`: append `reply` to the replies of the comment(s) whose id is `parentId`. */
  function InsertReply(cs: seq<Comment>, parentId: int, reply: Comment): (r: seq<Comment>)
    ensures |r| == |cs|
    ensures forall i :: 0 <= i < |cs| ==> r[i].id == cs[i].id
    decreases cs
  {
    seq(|cs|, i requires 0 <= i < |cs| => InsertInto(cs[i], parentId, reply))
  }

  /** The callback of the `map` in `insertReply`, applied to one comment. */
  function InsertInto(c: Comment, parentId: int, reply: Comment): Comment
    decreases c
  {
    if c.id == parentId then c.(replies := c.replies + [reply])
    else c.(replies := InsertReply(c.replies, parentId, reply))
  }

  // ---------------------------------------------------------------------
  // Reference vocabulary: node counts, ids, paths, uniqueness, like counts
  // ---------------------------------------------------------------------

  /** Number of comments in a forest, at every depth. */
  function CountForest(cs: seq<Comment>): nat
    decreases cs
  {
    if cs == [] then 0 else CountNode(cs[0]) + CountForest(cs[1..])
  }

  function CountNode(c: Comment): nat
    decreases c
  {
    1 + CountForest(c.replies)
  }

  /** Every id that occurs in a forest, at every depth. */
  ghost function ForestIds(cs: seq<Comment>): set<int>
    decreases cs
  {
    if cs == [] then {} else NodeIds(cs[0]) + ForestIds(cs[1..])
  }

  ghost function NodeIds(c: Comment): set<int>
    decreases c
  {
    {c.id} + ForestIds(c.replies)
  }

  /** Number of nodes a walk for id `t` stops at: matches with no matching ancestor. */
  ghost function HitsForest(cs: seq<Comment>, t: int): nat
    decreases cs
  {
    if cs == [] then 0 else HitsNode(cs[0], t) + HitsForest(cs[1..], t)
  }

  ghost function HitsNode(c: Comment, t: int): nat
    decreases c
  {
    if c.id == t then 1 else HitsForest(c.replies, t)
  }

  /** A path names a node: a root index, then an index into each level of replies. */
  ghost predicate ValidPath(cs: seq<Comment>, p: seq<nat>)
    decreases |p|
  {
    |p| > 0 && p[0] < |cs| && (|p| > 1 ==> ValidPath(cs[p[0]].replies, p[1..]))
  }

  /** The node a valid path names. */
  ghost function At(cs: seq<Comment>, p: seq<nat>): Comment
    requires ValidPath(cs, p)
    decreases |p|
  {
    if |p| == 1 then cs[p[0]] else At(cs[p[0]].replies, p[1..])
  }

  /** The node at `p` has id `t` and no node above it on the path has id `t`. */
  ghost predicate IsHit(cs: seq<Comment>, p: seq<nat>, t: int)
    requires ValidPath(cs, p)
    decreases |p|
  {
    if |p| == 1 then cs[p[0]].id == t
    else cs[p[0]].id != t && IsHit(cs[p[0]].replies, p[1..], t)
  }

  /** The write-once fields of a comment, and the number of its replies, agree. */
  ghost predicate SameShape(a: Comment, b: Comment)
  {
    a.id == b.id && a.author == b.author && a.content == b.content && a.time == b.time &&
    |a.replies| == |b.replies|
  }

  /** Ids are distinct across the whole forest, not only among siblings. */
  ghost predicate UniqueIds(cs: seq<Comment>)
    decreases cs
  {
    (forall i, j :: 0 <= i < j < |cs| ==> NodeIds(cs[i]) !! NodeIds(cs[j])) &&
    (forall i :: 0 <= i < |cs| ==> UniqueNode(cs[i]))
  }

  ghost predicate UniqueNode(c: Comment)
    decreases c
  {
    c.id !in ForestIds(c.replies) && UniqueIds(c.replies)
  }

  /** The like count never drops below the viewer's own like. */
  ghost predicate LikesConsistent(cs: seq<Comment>)
    decreases cs
  {
    forall i :: 0 <= i < |cs| ==> NodeConsistent(cs[i])
  }

  ghost predicate NodeConsistent(c: Comment)
    decreases c
  {
    c.likes >= (if c.isLiked then 1 else 0) && LikesConsistent(c.replies)
  }

  // ---------------------------------------------------------------------
  // Helper lemmas about the vocabulary
  // ---------------------------------------------------------------------

  /** Every root's ids belong to the forest's ids. */
  lemma {:induction false} RootIdsInForest(cs: seq<Comment>, i: nat)
    requires i < |cs|
    ensures NodeIds(cs[i]) <= ForestIds(cs)
    decreases |cs|
  {
    if i > 0 {
      RootIdsInForest(cs[1..], i - 1);
    }
  }

  /** An id of a forest lies below one of its roots. */
  lemma {:induction false} RootOf(cs: seq<Comment>, x: int) returns (i: nat)
    requires x in ForestIds(cs)
    ensures i < |cs| && x in NodeIds(cs[i])
    decreases |cs|
  {
    if x in NodeIds(cs[0]) {
      i := 0;
    } else {
      var j := RootOf(cs[1..], x);
      i := j + 1;
    }
  }

  /** Uniqueness of a forest carries over to its tail. */
  lemma UniqueTail(cs: seq<Comment>)
    requires cs != [] && UniqueIds(cs)
    ensures UniqueNode(cs[0]) && UniqueIds(cs[1..])
  {
    var tail := cs[1..];
    forall i, j | 0 <= i < j < |tail| ensures NodeIds(tail[i]) !! NodeIds(tail[j]) {
      assert tail[i] == cs[i + 1] && tail[j] == cs[j + 1];
    }
    forall i | 0 <= i < |tail| ensures UniqueNode(tail[i]) {
      assert tail[i] == cs[i + 1];
    }
  }

  /** The node a path names carries one of the forest's ids. */
  lemma {:induction false} AtInIds(cs: seq<Comment>, p: seq<nat>)
    requires ValidPath(cs, p)
    ensures At(cs, p).id in NodeIds(cs[p[0]]) && At(cs, p).id in ForestIds(cs)
    decreases |p|
  {
    RootIdsInForest(cs, p[0]);
    if |p| > 1 {
      AtInIds(cs[p[0]].replies, p[1..]);
    }
  }

  /** Conversely, every id of a forest is carried by the node at some path. */
  lemma {:induction false} PathTo(cs: seq<Comment>, x: int) returns (p: seq<nat>)
    requires x in ForestIds(cs)
    ensures ValidPath(cs, p) && At(cs, p).id == x
    decreases cs
  {
    var i := RootOf(cs, x);
    if cs[i].id == x {
      p := [i];
    } else {
      var q := PathTo(cs[i].replies, x);
      p := [i] + q;
      assert p[1..] == q;
    }
  }

  /** Appending siblings leaves every existing path and its node in place. */
  lemma AtAppend(cs: seq<Comment>, extra: seq<Comment>, p: seq<nat>)
    requires ValidPath(cs, p)
    ensures ValidPath(cs + extra, p) && At(cs + extra, p) == At(cs, p)
  {
    assert (cs + extra)[p[0]] == cs[p[0]];
  }

  lemma CountAppend(cs: seq<Comment>, c: Comment)
    ensures CountForest(cs + [c]) == CountForest(cs) + CountNode(c)
    decreases |cs|
  {
    if cs != [] {
      assert (cs + [c])[1..] == cs[1..] + [c];
      CountAppend(cs[1..], c);
    } else {
      assert [c][1..] == [];
    }
  }

  // ---------------------------------------------------------------------
  // updateLikes
  // ---------------------------------------------------------------------

  /**
   * Double toggle is the identity, for every forest and every id: the first
   * walk changes no id, so the second one stops at the same nodes and
   * undoes each change.
   */
  lemma {:induction false} UpdateLikesTwice(cs: seq<Comment>, target: int)
    ensures UpdateLikes(UpdateLikes(cs, target), target) == cs
    decreases cs
  {
    var once := UpdateLikes(cs, target);
    forall i | 0 <= i < |cs| ensures UpdateLike(once[i], target) == cs[i] {
      UpdateLikeTwice(cs[i], target);
    }
  }

  lemma {:induction false} UpdateLikeTwice(c: Comment, target: int)
    ensures UpdateLike(UpdateLike(c, target), target) == c
    decreases c
  {
    if c.id != target {
      UpdateLikesTwice(c.replies, target);
    }
  }

  /** An id that occurs nowhere in the forest leaves it value-equal. */
  lemma {:induction false} UpdateLikesAbsent(cs: seq<Comment>, target: int)
    requires target !in ForestIds(cs)
    ensures UpdateLikes(cs, target) == cs
    decreases cs
  {
    forall i | 0 <= i < |cs| ensures UpdateLike(cs[i], target) == cs[i] {
      RootIdsInForest(cs, i);
      UpdateLikesAbsent(cs[i].replies, target);
    }
  }

  /**
   * Node by node: the tree keeps its shape (the same paths, and at each the
   * same id, author, content, time and number of replies); the node the walk
   * stops at has its like flipped and its count moved by one; every other
   * node keeps its like state.
   */
  lemma {:induction false} UpdateLikesAt(cs: seq<Comment>, target: int, p: seq<nat>)
    ensures ValidPath(UpdateLikes(cs, target), p) <==> ValidPath(cs, p)
    ensures ValidPath(cs, p) ==>
      var before, after := At(cs, p), At(UpdateLikes(cs, target), p);
      SameShape(before, after) &&
      (if IsHit(cs, p, target)
       then after.likes == ToggledLikes(before) && after.isLiked == !before.isLiked
       else after.likes == before.likes && after.isLiked == before.isLiked)
    decreases |p|
  {
    if |p| > 1 && p[0] < |cs| && cs[p[0]].id != target {
      UpdateLikesAt(cs[p[0]].replies, target, p[1..]);
    }
  }

  /** The walk keeps the number of comments. */
  lemma {:induction false} UpdateLikesCount(cs: seq<Comment>, target: int)
    ensures CountForest(UpdateLikes(cs, target)) == CountForest(cs)
    decreases cs
  {
    if cs != [] {
      var r := UpdateLikes(cs, target);
      assert r[1..] == UpdateLikes(cs[1..], target);
      UpdateLikesCount(cs[1..], target);
      if cs[0].id != target {
        UpdateLikesCount(cs[0].replies, target);
      }
    }
  }

  /** The walk keeps every like count consistent with its flag. */
  lemma {:induction false} UpdateLikesConsistent(cs: seq<Comment>, target: int)
    requires LikesConsistent(cs)
    ensures LikesConsistent(UpdateLikes(cs, target))
    decreases cs
  {
    forall i | 0 <= i < |cs| ensures NodeConsistent(UpdateLike(cs[i], target)) {
      if cs[i].id != target {
        UpdateLikesConsistent(cs[i].replies, target);
      }
    }
  }

  // ---------------------------------------------------------------------
  // Ids that are unique across the forest
  // ---------------------------------------------------------------------

  /**
   * `UniqueIds` says what it should: a forest has unique ids exactly when it
   * has as many distinct ids as nodes; in general it has no more.
   */
  lemma {:induction false} UniqueIdsCount(cs: seq<Comment>)
    ensures |ForestIds(cs)| <= CountForest(cs)
    ensures UniqueIds(cs) <==> |ForestIds(cs)| == CountForest(cs)
    decreases cs
  {
    if cs != [] {
      var c, rest := cs[0], cs[1..];
      UniqueNodeCount(c);
      UniqueIdsCount(rest);
      var a, b := NodeIds(c), ForestIds(rest);
      assert |a + b| + |a * b| == |a| + |b|;
      if UniqueIds(cs) {
        UniqueTail(cs);
        forall x | x in a ensures x !in b {
          if x in b {
            var j := RootOf(rest, x);
            assert false;
          }
        }
        assert a * b == {};
      }
      if |ForestIds(cs)| == CountForest(cs) {
        assert |a| == CountNode(c) && |b| == CountForest(rest) && |a * b| == 0;
        forall i, j | 0 <= i < j < |cs| ensures NodeIds(cs[i]) !! NodeIds(cs[j]) {
          assert cs[j] == rest[j - 1];
          RootIdsInForest(rest, j - 1);
          if i > 0 {
            assert cs[i] == rest[i - 1];
          }
        }
        forall i | 0 <= i < |cs| ensures UniqueNode(cs[i]) {
          if i > 0 {
            assert cs[i] == rest[i - 1];
          }
        }
      }
    }
  }

  lemma {:induction false} UniqueNodeCount(c: Comment)
    ensures |NodeIds(c)| <= CountNode(c)
    ensures UniqueNode(c) <==> |NodeIds(c)| == CountNode(c)
    decreases c
  {
    UniqueIdsCount(c.replies);
    var rs := ForestIds(c.replies);
    if c.id in rs {
      assert NodeIds(c) == rs;
    } else {
      assert |{c.id} + rs| == 1 + |rs|;
    }
  }

  /** With unique ids, two paths to nodes with the same id are the same path. */
  lemma {:induction false} UniquePath(cs: seq<Comment>, p: seq<nat>, q: seq<nat>)
    requires UniqueIds(cs) && ValidPath(cs, p) && ValidPath(cs, q)
    requires At(cs, p).id == At(cs, q).id
    ensures p == q
    decreases |p|
  {
    AtInIds(cs, p);
    AtInIds(cs, q);
    if p[0] != q[0] {
      assert false;
    }
    var c := cs[p[0]];
    assert UniqueNode(c);
    if |p| == 1 && |q| > 1 {
      AtInIds(c.replies, q[1..]);
      assert false;
    } else if |p| > 1 && |q| == 1 {
      AtInIds(c.replies, p[1..]);
      assert false;
    } else if |p| > 1 {
      UniquePath(c.replies, p[1..], q[1..]);
      assert p == [p[0]] + p[1..] && q == [q[0]] + q[1..];
    }
  }

  /** With unique ids, a walk for `t` stops exactly at the node whose id is `t`. */
  lemma {:induction false} HitIffMatch(cs: seq<Comment>, p: seq<nat>, t: int)
    requires UniqueIds(cs) && ValidPath(cs, p)
    ensures IsHit(cs, p, t) <==> At(cs, p).id == t
    decreases |p|
  {
    if |p| > 1 {
      var c := cs[p[0]];
      assert UniqueNode(c);
      HitIffMatch(c.replies, p[1..], t);
      AtInIds(c.replies, p[1..]);
    }
  }

  /**
   * For unique ids, `updateLikes` changes the like state of the node with the
   * target id and of no other node; as at most one node carries that id
   * (`UniquePath`), exactly one like pair changes when the id is present.
   */
  lemma UpdateLikesUnique(cs: seq<Comment>, target: int, q: seq<nat>)
    requires UniqueIds(cs) && ValidPath(cs, q)
    ensures ValidPath(UpdateLikes(cs, target), q)
    ensures var before, after := At(cs, q), At(UpdateLikes(cs, target), q);
      SameShape(before, after) &&
      (if before.id == target
       then after.likes == ToggledLikes(before) && after.isLiked == !before.isLiked
       else after.likes == before.likes && after.isLiked == before.isLiked)
  {
    UpdateLikesAt(cs, target, q);
    HitIffMatch(cs, q, target);
  }

  /** A walk stops at some node exactly when the id occurs in the forest. */
  lemma {:induction false} HitsPositive(cs: seq<Comment>, t: int)
    ensures HitsForest(cs, t) > 0 <==> t in ForestIds(cs)
    decreases cs
  {
    if cs != [] {
      HitsPositive(cs[1..], t);
      HitsPositive(cs[0].replies, t);
    }
  }

  /** With unique ids, a present id is hit exactly once. */
  lemma {:induction false} HitsUnique(cs: seq<Comment>, t: int)
    requires UniqueIds(cs)
    ensures HitsForest(cs, t) == if t in ForestIds(cs) then 1 else 0
    decreases cs
  {
    HitsPositive(cs, t);
    if cs != [] {
      UniqueTail(cs);
      var c := cs[0];
      HitsUnique(cs[1..], t);
      HitsUnique(c.replies, t);
      if t in NodeIds(c) && t in ForestIds(cs[1..]) {
        var j := RootOf(cs[1..], t);
        assert false;
      }
    }
  }

  // ---------------------------------------------------------------------
  // insertReply
  // ---------------------------------------------------------------------

  /** A parent id that occurs nowhere in the forest leaves it value-equal. */
  lemma {:induction false} InsertReplyAbsent(cs: seq<Comment>, parentId: int, reply: Comment)
    requires parentId !in ForestIds(cs)
    ensures InsertReply(cs, parentId, reply) == cs
    decreases cs
  {
    forall i | 0 <= i < |cs| ensures InsertInto(cs[i], parentId, reply) == cs[i] {
      RootIdsInForest(cs, i);
      InsertReplyAbsent(cs[i].replies, parentId, reply);
    }
  }

  /**
   * Node by node: every path of the old forest names a node of the new one
   * with the same id, author, content, time and like state; the node the walk
   * stops at gets `reply` appended as its last reply, and every other node
   * keeps its number of replies.
   */
  lemma {:induction false} InsertReplyAt(cs: seq<Comment>, parentId: int, reply: Comment, p: seq<nat>)
    requires ValidPath(cs, p)
    ensures ValidPath(InsertReply(cs, parentId, reply), p)
    ensures var before, after := At(cs, p), At(InsertReply(cs, parentId, reply), p);
      after.id == before.id && after.author == before.author &&
      after.content == before.content && after.time == before.time &&
      after.likes == before.likes && after.isLiked == before.isLiked &&
      (if IsHit(cs, p, parentId)
       then after.replies == before.replies + [reply]
       else |after.replies| == |before.replies|)
    decreases |p|
  {
    var c := cs[p[0]];
    if |p| > 1 {
      if c.id == parentId {
        AtAppend(c.replies, [reply], p[1..]);
      } else {
        InsertReplyAt(c.replies, parentId, reply, p[1..]);
      }
    }
  }

  /** Each node the walk stops at gains the nodes of `reply`, no more. */
  lemma {:induction false} InsertReplyCount(cs: seq<Comment>, parentId: int, reply: Comment)
    ensures CountForest(InsertReply(cs, parentId, reply))
            == CountForest(cs) + HitsForest(cs, parentId) * CountNode(reply)
    decreases cs
  {
    if cs != [] {
      var c := cs[0];
      var r := InsertReply(cs, parentId, reply);
      assert r[1..] == InsertReply(cs[1..], parentId, reply);
      InsertReplyCount(cs[1..], parentId, reply);
      if c.id == parentId {
        CountAppend(c.replies, reply);
      } else {
        InsertReplyCount(c.replies, parentId, reply);
      }
      var h0, h1, k := HitsNode(c, parentId), HitsForest(cs[1..], parentId), CountNode(reply);
      assert (h0 + h1) * k == h0 * k + h1 * k;
    }
  }

  /**
   * For a parent id present once in a forest with unique ids: the parent's
   * last reply is now `reply` after all its old replies, its own fields are
   * unchanged, every other node keeps its fields and number of replies, and
   * the forest holds exactly the nodes of `reply` more.
   */
  lemma InsertReplyUnique(cs: seq<Comment>, parentId: int, reply: Comment, p: seq<nat>)
    requires UniqueIds(cs) && ValidPath(cs, p) && At(cs, p).id == parentId
    ensures CountForest(InsertReply(cs, parentId, reply)) == CountForest(cs) + CountNode(reply)
    ensures ValidPath(InsertReply(cs, parentId, reply), p)
    ensures At(InsertReply(cs, parentId, reply), p) == At(cs, p).(replies := At(cs, p).replies + [reply])
    ensures forall q :: ValidPath(cs, q) && q != p ==>
      ValidPath(InsertReply(cs, parentId, reply), q) &&
      SameShape(At(cs, q), At(InsertReply(cs, parentId, reply), q)) &&
      At(InsertReply(cs, parentId, reply), q).likes == At(cs, q).likes &&
      At(InsertReply(cs, parentId, reply), q).isLiked == At(cs, q).isLiked
  {
    InsertReplyAt(cs, parentId, reply, p);
    HitIffMatch(cs, p, parentId);
    InsertReplyCount(cs, parentId, reply);
    AtInIds(cs, p);
    HitsUnique(cs, parentId);
    forall q | ValidPath(cs, q) && q != p
      ensures ValidPath(InsertReply(cs, parentId, reply), q) &&
        SameShape(At(cs, q), At(InsertReply(cs, parentId, reply), q)) &&
        At(InsertReply(cs, parentId, reply), q).likes == At(cs, q).likes &&
        At(InsertReply(cs, parentId, reply), q).isLiked == At(cs, q).isLiked
    {
      InsertReplyAt(cs, parentId, reply, q);
      HitIffMatch(cs, q, parentId);
      if At(cs, q).id == parentId {
        UniquePath(cs, p, q);
      }
    }
  }

  /** Inserting a reply whose like count is consistent keeps the forest consistent. */
  lemma {:induction false} InsertReplyConsistent(cs: seq<Comment>, parentId: int, reply: Comment)
    requires LikesConsistent(cs) && NodeConsistent(reply)
    ensures LikesConsistent(InsertReply(cs, parentId, reply))
    decreases cs
  {
    forall i | 0 <= i < |cs| ensures NodeConsistent(InsertInto(cs[i], parentId, reply)) {
      var c := cs[i];
      assert NodeConsistent(c);
      if c.id == parentId {
        var rs := c.replies + [reply];
        forall k | 0 <= k < |rs| ensures NodeConsistent(rs[k]) {
          if k < |c.replies| {
            assert LikesConsistent(c.replies);
            assert rs[k] == c.replies[k];
            assert NodeConsistent(c.replies[k]);
          } else {
            assert rs[k] == reply;
          }
        }
      } else {
        InsertReplyConsistent(c.replies, parentId, reply);
      }
    }
  }

  // ---------------------------------------------------------------------
  // Both walks keep ids unique
  // ---------------------------------------------------------------------

  /** The ids of a forest with one more root are the old ids and the new root's. */
  lemma {:induction false} IdsAppend(cs: seq<Comment>, c: Comment)
    ensures ForestIds(cs + [c]) == ForestIds(cs) + NodeIds(c)
    decreases |cs|
  {
    if cs != [] {
      assert (cs + [c])[1..] == cs[1..] + [c];
      IdsAppend(cs[1..], c);
    } else {
      assert [c][1..] == [];
    }
  }

  /** Appending a root whose ids are new and unique keeps a forest's ids unique. */
  lemma UniqueAppend(cs: seq<Comment>, c: Comment)
    requires UniqueIds(cs) && UniqueNode(c) && NodeIds(c) !! ForestIds(cs)
    ensures UniqueIds(cs + [c])
  {
    var rs := cs + [c];
    forall i, j | 0 <= i < j < |rs| ensures NodeIds(rs[i]) !! NodeIds(rs[j]) {
      assert rs[i] == cs[i];
      if j == |cs| {
        RootIdsInForest(cs, i);
      } else {
        assert rs[j] == cs[j];
      }
    }
    forall i | 0 <= i < |rs| ensures UniqueNode(rs[i]) {
      if i < |cs| {
        assert rs[i] == cs[i];
      }
    }
  }

  /** `updateLikes` changes no id. */
  lemma {:induction false} UpdateLikesIds(cs: seq<Comment>, target: int)
    ensures ForestIds(UpdateLikes(cs, target)) == ForestIds(cs)
    decreases cs
  {
    if cs != [] {
      var r := UpdateLikes(cs, target);
      assert r[0] == UpdateLike(cs[0], target);
      assert r[1..] == UpdateLikes(cs[1..], target);
      UpdateLikeIds(cs[0], target);
      UpdateLikesIds(cs[1..], target);
    }
  }

  lemma {:induction false} UpdateLikeIds(c: Comment, target: int)
    ensures NodeIds(UpdateLike(c, target)) == NodeIds(c)
    decreases c
  {
    if c.id != target {
      UpdateLikesIds(c.replies, target);
    }
  }

  /** `updateLikes` keeps the ids of a forest unique. */
  lemma {:induction false} UpdateLikesKeepsUnique(cs: seq<Comment>, target: int)
    requires UniqueIds(cs)
    ensures UniqueIds(UpdateLikes(cs, target))
    decreases cs
  {
    var r := UpdateLikes(cs, target);
    forall i | 0 <= i < |cs| ensures NodeIds(r[i]) == NodeIds(cs[i]) && UniqueNode(r[i]) {
      assert r[i] == UpdateLike(cs[i], target);
      UpdateLikeIds(cs[i], target);
      assert UniqueNode(cs[i]);
      if cs[i].id != target {
        UpdateLikesIds(cs[i].replies, target);
        UpdateLikesKeepsUnique(cs[i].replies, target);
      }
    }
  }

  /** `insertReply` adds the reply's ids exactly when the parent id occurs. */
  lemma {:induction false} InsertReplyIds(cs: seq<Comment>, parentId: int, reply: Comment)
    ensures ForestIds(InsertReply(cs, parentId, reply))
            == ForestIds(cs) + (if parentId in ForestIds(cs) then NodeIds(reply) else {})
    decreases cs
  {
    if cs != [] {
      var r := InsertReply(cs, parentId, reply);
      assert r[0] == InsertInto(cs[0], parentId, reply);
      assert r[1..] == InsertReply(cs[1..], parentId, reply);
      InsertIntoIds(cs[0], parentId, reply);
      InsertReplyIds(cs[1..], parentId, reply);
    }
  }

  lemma {:induction false} InsertIntoIds(c: Comment, parentId: int, reply: Comment)
    ensures NodeIds(InsertInto(c, parentId, reply))
            == NodeIds(c) + (if parentId in NodeIds(c) then NodeIds(reply) else {})
    decreases c
  {
    if c.id == parentId {
      IdsAppend(c.replies, reply);
    } else {
      InsertReplyIds(c.replies, parentId, reply);
    }
  }

  /** `insertReply` keeps ids unique when the reply's ids are unique and new to the forest. */
  lemma {:induction false} InsertReplyKeepsUnique(cs: seq<Comment>, parentId: int, reply: Comment)
    requires UniqueIds(cs) && UniqueNode(reply) && NodeIds(reply) !! ForestIds(cs)
    ensures UniqueIds(InsertReply(cs, parentId, reply))
    decreases cs
  {
    var r := InsertReply(cs, parentId, reply);
    forall i | 0 <= i < |cs|
      ensures NodeIds(r[i]) == NodeIds(cs[i]) + (if parentId in NodeIds(cs[i]) then NodeIds(reply) else {})
      ensures UniqueNode(r[i])
    {
      assert r[i] == InsertInto(cs[i], parentId, reply);
      InsertIntoIds(cs[i], parentId, reply);
      RootIdsInForest(cs, i);
      InsertIntoKeepsUnique(cs[i], parentId, reply);
    }
    forall i, j | 0 <= i < j < |r| ensures NodeIds(r[i]) !! NodeIds(r[j]) {
      assert NodeIds(cs[i]) !! NodeIds(cs[j]);
      RootIdsInForest(cs, i);
      RootIdsInForest(cs, j);
    }
  }

  lemma {:induction false} InsertIntoKeepsUnique(c: Comment, parentId: int, reply: Comment)
    requires UniqueNode(c) && UniqueNode(reply) && NodeIds(reply) !! NodeIds(c)
    ensures UniqueNode(InsertInto(c, parentId, reply))
    decreases c
  {
    if c.id == parentId {
      IdsAppend(c.replies, reply);
      UniqueAppend(c.replies, reply);
    } else {
      InsertReplyIds(c.replies, parentId, reply);
      InsertReplyKeepsUnique(c.replies, parentId, reply);
    }
  }
}
